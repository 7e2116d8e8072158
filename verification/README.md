# Model of the Glue extension's Hive tables

The extension makes the Hive tables and views of an AWS Glue catalog tables and views of DuckDB. It plans which
directories a scan lists, gives every file to a partition, prunes partitions by filters, routes and registers what an
INSERT writes, stores views so that they outlive the session they were created in, reads and writes the type strings
and text rows of Hive, and keeps what it knows of Glue in a cache and in catalog entries that running transactions use.
This project models those parts and proves what they are for. `dafny verify dfyconfig.toml` checks all of it.

| files | what they model |
|---|---|
| `Text`, `Escaping`, `PartitionValues`, `Locations` | strings, percent-encoding (section 2.1 of RFC 3986) and blob text, partition values as text, locations and default directories |
| `Listing`, `ListingPlan`, `ListingRefinement`, `LocationIndex`, `FileList`, `ScanFiles`, `Sample` | which files a scan reads, stated without listings; the planned listings; the index of locations; the lazy file list as a class; the sample |
| `Pruning` | filters decided by partition values |
| `ViewWalker`, `ViewScopes`, `ViewShapes`, `ViewNames` | queries with CTEs, the walker, where CTEs are declared, which bodies it accepts, and the three passes over a view's body |
| `HiveTypes`, `HiveGrammar`, `HiveTypeParser`, `SchemaEvolution`, `ColumnTypes` | type strings and their grammar, the parser as a class with a position, changes of a csv table's columns, and how a partition's columns compare with them |
| `TextRows`, `OpenCsv` | text rows of LazySimpleSerDe and OpenCSVSerde |
| `InsertRouting`, `InsertRefusals`, `InsertAgreement`, `InsertFinalize`, `InsertScan` | INSERT: the CASE, which rows it refuses, agreement with the index of locations, registration and rollback, and the way from written rows to the scan's listings |
| `GlueServer`, `PartitionApi`, `AlterTable`, `AlterApply`, `Repair` | Glue with other writers and faults, batch requests with retries, ALTER TABLE with several actions, repair |
| `Reclamation`, `MetadataCache` | catalog entries and the metadata cache as interleaved steps, with the classes that take them |

Functions say what is meant, methods and classes do what the code does, loop by loop, and are proved to do what the
functions say; lemmas say what the functions promise.

Where a claim one would expect is false of the code, the code is modelled as it is:

- A root listing and the partitions' own listings skip hidden components from different directories on.
  `ListingRefinement.RootListingIsExact` says exactly when they agree.
- The planner means not to list a location with an empty segment with the root, but looks for the segment one character
  too late (`src/planning/hive_multi_file_reader.cpp:386-455`); the code is followed, not the comment
  (`ListingRefinement.EmptyFirstSegmentIsMissed`).
- A partition that declares other column types does not guard its directory from other rows
  (`InsertAgreement.ReadsBackExactlyWhen`).
- A statement that gives a partition a location and then renames it loses the location
  (`AlterTable.EndsOneByOneExactlyWhen`).
- A bulk fetch of definitions that spans a clear may bring an old definition to the cleared cache
  (`MetadataCache.BulkFetchAcrossClear`); `MetadataCache.FreshExactlyWhen` says exactly in which runs.
- Some NULL strings and escape characters that the table checks let through do not read back
  (`TextRows.Dialect.FilesReadBackExactlyWhen`), and a row that
  leaves its line blank is lost (`TextRows.Dialect.FileReadsBackExactlyWhen`).
- Repair compares locations as they are spelled (`Repair.KeepsApartExactlyWhen`).
- The type parser knows the name "timestamp with time zone" and never reads it, because a name ends at its first space
  (`HiveGrammar.ZoneInWordsIsRefused`).

What is assumed of the surroundings:

- Characters stand for bytes; blob values hold characters below 256. Strings of any length, sequence numbers without
  bound.
- Stored objects are named by keys in the s3:// spelling; listing a directory gives the objects below it, in its own
  spelling. A sample's listing is in the order of comparable paths.
- Splitting a string does not report a trailing empty piece, as DuckDB's line-wise splitting does not.
- Glue is a map from values to locations with a script of what other writers do before each request, which requests
  fail, with or without having done what they were sent for, and what each request refuses, leaves unprocessed, or does
  although it reports an error. The one thing asked of
  it is that errors that say a partition exists, or does not, are only given when that is so. Keys left unprocessed are
  among those sent.
- Identifiers in views are folded to one case. A Glue catalog's id starts with a digit, and a kind of catalog has no
  colon. Whether an id is known without asking Glue is a flag of the catalog.
- The casts DuckDB makes on its own are a parameter of the check of partition columns.

## Model

| member | source | states |
|---|---|---|
| Escaping.Codec.DecodeOfEncode | src/core/hive_location.cpp:24-33 | Decoding an encoded text gives the text back, for any text and any set of escaped characters: directory names and blob values lose nothing. |
| Escaping.Codec.EncodeUses | src/core/hive_location.cpp:24-33 | An encoded text holds none of the characters its codec escapes: no key or value puts a '/' or '=' of its own in a directory name. |
| Escaping.PercentWrites | src/core/hive_location.cpp:24-33 | In a directory name letters, digits and - _ . ~ stay, and any other byte is a percent sign and two capital hexadecimal digits. |
| Escaping.PercentReads | src/functions/glue_repair_table.cpp:82-92 | Reading a name, an escape is undone in either case of its digits and a percent sign without one stays. |
| Escaping.BlobWrites | src/planning/glue_hive_insert.cpp:188-232 | A binary value stays readable up to quotes and backslashes; any other byte is written with two hexadecimal digits. |
| Escaping.BlobRefuses | src/core/glue_types.cpp:302-318 | A binary key's text with a quote, an unprintable byte or a backslash without an escape can not be read. |
| PartitionValues.StoredTextReadsBack | src/planning/glue_hive_insert.cpp:188-232 | The text a value is registered as reads back as that value if and only if the INSERT does not refuse the row: the refusal is exact, for integers, booleans, texts, blobs and NULL. |
| PartitionValues.PaddedNumberReads | src/core/glue_types.cpp:302-318 | For an integer key leading zeros do not count, with and without a sign, and a number of more than 64 bits can not be read. |
| PartitionValues.NoNumber | src/core/glue_types.cpp:302-318 | Anything but digits, with at most one sign before them, is no value of an integer key. |
| PartitionValues.BooleanReads | src/core/glue_types.cpp:302-318 | A boolean key is read from its name, first letter or digit in any case. |
| PartitionValues.NullReads | src/core/glue_types.cpp:294-300 | A partition value is NULL exactly when it is the default partition's name or, for a key that is not text, empty or NULL in any case; a text is verbatim. |
| Locations.ComparableOfChild | src/core/hive_location.cpp:8-18 | What a path below a directory is compared as does not depend on which spelling of the scheme the directory was listed by. |
| Locations.OneBucket | src/core/hive_location.cpp:8-18 | s3://, s3a:// and s3n:// in any case are compared as the same bucket. |
| Locations.OtherSchemesStay | src/core/hive_location.cpp:8-18 | Any other location is compared as it is spelled. |
| Locations.KeyOfListedPath | src/planning/hive_multi_file_reader.cpp:303-316 | A listed path names the one stored object it came from, whichever spelling of a directory above it was listed. |
| Locations.DirectoryReadsBack | src/core/hive_location.cpp:24-33 | Splitting a default partition directory gives its components back, and each component its key's value: also for values that hold separators, are empty or are the default partition name. |
| Locations.ComponentReads | src/functions/glue_repair_table.cpp:82-92 | A component gives its value to the key it names in any case, once escapes are undone, and to no other key; one without = gives none. |
| Locations.DirectoryIsInjective | src/core/hive_location.cpp:24-33 | Two lists of values with the same default directory are the same. |
| Locations.HivePartitionDirectory | src/core/hive_location.cpp:24-33 | The loop that builds the directory builds exactly the directory that reads back. |
| LocationIndex.BuildPartitionLocations | src/planning/hive_multi_file_reader.cpp:457-478 | The index holds the first partition of every non-empty comparable location and nothing else, and the shared lists hold, in order, exactly the partitions of each location that several have. |
| LocationIndex.LocationShared | src/planning/hive_multi_file_reader.cpp:480-505 | A file is refused exactly when another partition has its owner's location and a partition at that location is being read. |
| LocationIndex.OwningPartition | src/planning/hive_multi_file_reader.cpp:507-526 | Climbing from the file to the root finds the deepest registered location above it, the first of those sharing it, and gives up only when none of the asked length holds the file. |
| LocationIndex.DeepestLocation | src/planning/hive_multi_file_reader.cpp:507-526 | The same for a path already in comparable spelling, with the climb's loop invariant: no holder is longer than what is left to try. |
| FileList.ListDataFiles | src/planning/hive_multi_file_reader.cpp:303-316 | A listing gives the data files below the trimmed directory, in order and in its spelling; an empty directory lists nothing. |
| FileList.SplitByRoot | src/planning/hive_multi_file_reader.cpp:386-455 | The partitions to read split into those a root listing covers and the others, order kept. |
| FileList.CountPartitionsBelow | src/planning/hive_multi_file_reader.cpp:386-455 | The number of registered locations that start with the root as they are spelled. |
| FileList.AddBatches | src/planning/hive_multi_file_reader.cpp:386-455 | Cutting a list into jobs in steps of the thread count gives the batches the plan means. |
| FileList.KeysAreDistinct | src/planning/hive_multi_file_reader.cpp:573-581 | While a listed path is taken once, no stored object is in the list twice, even if the directories it was listed through are spelled differently. |
| ScanFiles.PlanJobs | src/planning/hive_multi_file_reader.cpp:386-455 | The planning loops give the specified plan: root once plus batches, or batches only. |
| ListingPlan.PlanCovers | src/planning/hive_multi_file_reader.cpp:386-455 | Every partition to read is in the jobs exactly as often as it was given, no batch is empty or exceeds the threads, a root job comes first and holds exactly the covered ones, and jobs number at most ceil(below/threads) + ceil(elsewhere/threads). |
| ListingPlan.FewestRounds | src/planning/hive_multi_file_reader.cpp:381-455 | Without a threshold the rounds of requests below the root are the smaller of the root's pages and the batches. |
| ListingPlan.OnePageRoot | src/planning/hive_multi_file_reader.cpp:381-455 | With 1 to 1000 partitions below the root it is listed exactly when at least min(10, threads + 1) of them are read. |
| ListingPlan.PagesRoot | src/planning/hive_multi_file_reader.cpp:381-455 | With p pages of partitions below the root, for any p, it is listed exactly when more than p times the thread count of them are read, or more than p - 1 times it and 10p. |
| ListingPlan.ThresholdDecides | src/planning/hive_multi_file_reader.cpp:381-455 | With a threshold the root is listed exactly when one partition covered by it, and as many as the threshold says, are read. |
| ListingPlan.ListedWithRootExactlyWhen | src/planning/hive_multi_file_reader.cpp:386-455 | A location below the root is listed with it exactly when no component between its first and its last below the root is empty. |
| ListingPlan.CountCoversCanonical | src/planning/hive_multi_file_reader.cpp:386-455 | For locations spelled as they are compared, the partitions listed with the root are never more than those its pages are counted from. |
| ListingSpec.DataThrough | src/planning/hive_multi_file_reader.cpp:275-291 | Seen from the root an object is a data file exactly when it is one seen from its own partition and the location between the two has no hidden or empty component. |
| ListingSpec.DataFileExactlyWhen | src/planning/hive_multi_file_reader.cpp:275-291 | Below a prefix the data files are exactly the files with no component that is empty or starts with an underscore or a dot, whose name does not end in "_$folder$", and whose size is unknown or positive. |
| ListingSpec.SlashAtTheEnd | src/planning/hive_multi_file_reader.cpp:275-291 | One slash at the end of a path makes no difference to that. |
| ListingSpec.NoDataFile | src/planning/hive_multi_file_reader.cpp:275-291 | The prefix itself and a path that does not start with it are no data file. |
| ListingSpec.ObjectIsFoundExactlyWhen | src/planning/hive_multi_file_reader.cpp:275-291 | An object of n bytes is found for a partition above it exactly when the partition is read and owns it, n is not 0, and no component below the partition is one to skip. |
| ListingRefinement.PlanRefines | src/planning/hive_multi_file_reader.cpp:386-455 | For all registered locations (nested, shared, other scheme, outside the root), objects, partitions read, thread counts and thresholds: the planned listings find exactly the files that belong to a partition read, by deepest location, and refuse in exactly the same cases as listing each partition by itself, if the root is not listed or no partition listed with it has a hidden component below it. |
| ListingRefinement.RootListingIsExact | src/planning/hive_multi_file_reader.cpp:275-291 | That condition is exact: a root listing agrees with the partitions' own listings over every storage if and only if none of the listed locations has a hidden or empty component below the root. |
| ListingRefinement.PlanIsExact | src/planning/hive_multi_file_reader.cpp:386-455 | ... and so for the whole plan of any partitions: it finds what their own listings find on every storage if and only if it does not list the root, or lists no location with it that has a hidden or empty component below it. |
| ListingRefinement.FileIsFoundExactlyWhen | src/planning/hive_multi_file_reader.cpp:457-624 | For one data file that one partition owns, whatever else is registered, read or hidden: the planned listings find it, for that partition alone, if and only if the partition is read and is not listed with the root or has no hidden or empty component below it. |
| ListingRefinement.EmptyFirstSegmentIsMissed | src/planning/hive_multi_file_reader.cpp:386-455 | A location t//x is listed with the root t, although the comment there says a location with an empty segment is not: the search for // starts one character late. Such a location has a component the root listing skips. |
| ScanFiles.CheckPartitions | src/planning/hive_multi_file_reader.cpp:152-214 | The check passes exactly when every partition to be listed has one value per key and is stored as the table is. |
| ScanFiles.HiveMultiFileList.PlanListings | src/planning/hive_multi_file_reader.cpp:386-455 | Planning happens once, keeps the invariant of the list and changes no file found. |
| ScanFiles.HiveMultiFileList.AddFile | src/planning/hive_multi_file_reader.cpp:573-581 | Taking a file adds it with its partition and nothing else; a path taken before changes nothing. |
| ScanFiles.HiveMultiFileList.AddOwnFile | src/planning/hive_multi_file_reader.cpp:528-571 | A file of a partition's own listing is kept exactly when that partition owns it, and refused exactly when its owner's location is shared with a partition read together. |
| ScanFiles.HiveMultiFileList.ListPartitions | src/planning/hive_multi_file_reader.cpp:528-571 | A batch adds exactly the specified pairs of its partitions, and fails exactly when one of them would read files of a shared location. |
| ScanFiles.HiveMultiFileList.ListRoot | src/planning/hive_multi_file_reader.cpp:583-624 | The root listing adds exactly the pairs of the partitions listed with it, and fails exactly when one of them would read shared files. |
| ScanFiles.HiveMultiFileList.RunJob | src/planning/hive_multi_file_reader.cpp:626-664 | A job adds exactly what it is specified to find, and fails exactly when it is specified to be refused. |
| ScanFiles.HiveMultiFileList.ExpandNextPath | src/planning/hive_multi_file_reader.cpp:626-664 | One call runs one listing: the files are those the jobs run so far find, a job is never run twice, and false means all were run. |
| ScanFiles.HiveMultiFileList.AllExpandedIsComplete | src/planning/hive_multi_file_reader.cpp:626-664 | When every job was run, the list holds exactly the pairs (file, owner) of the partitions read, each stored object once, and the scan was not one to refuse: if the root is not listed, or skips none of the locations listed with it, which ListingRefinement.PlanIsExact shows to be the exact condition. |
| ScanFiles.HiveMultiFileList.NoneHiddenIsSeen | src/planning/hive_multi_file_reader.cpp:386-455 | That is so when no partition read has a hidden or empty component below the root. |
| ScanFiles.HiveMultiFileList.PlanAgrees | src/planning/hive_multi_file_reader.cpp:386-455 | Under the same condition the planned jobs can all be run without a refusal exactly when the scan, stated without its listings, is not refused. |
| ScanFiles.HiveMultiFileList.GetFileCount | src/planning/hive_multi_file_reader.cpp:679-703 | It ends, with an exact count of a complete list once everything is expanded, otherwise with the files so far plus one for each partition still to be listed; it lists nothing while the files so far are enough, and fails, under the condition of PlanAgrees, only for a scan that is refused. |
| ScanFiles.RemainingPartitions | src/planning/hive_multi_file_reader.cpp:679-703 | The estimate for the jobs left is the number of partitions still to list. |
| Sample.AtIsContiguous | src/planning/hive_multi_file_reader.cpp:739-807 | In a listing in key order the files of one partition are next to each other. |
| Sample.CutIsComplete | src/planning/hive_multi_file_reader.cpp:739-807 | Cut before its last run of files, or right after a partition read to its end, a sample holds every data file of each partition it holds one of. |
| Sample.SampleRootPartitions | src/planning/hive_multi_file_reader.cpp:739-807 | For any page boundaries: the sample holds all listed data files of each partition it holds one of, and holds a partition the scan reads whenever one of those has a data file; pages are fetched on only when those fetched hold no file of a partition read, or end within one. |
| Pruning.Scan.ReplaceKeepsValue | src/planning/hive_multi_file_reader.cpp:1272-1299 | Substitution lemma: replacing partition columns by a partition's typed values changes no expression's value in its rows, NULLs and errors included. |
| Pruning.Scan.DecidedInRows | src/planning/hive_multi_file_reader.cpp:1301-1342 | A filter decided true for a partition is true in each of its rows, and one that rules a partition out is true in none. |
| Pruning.Scan.DecidesByRows | src/planning/hive_multi_file_reader.cpp:1272-1342 | What a filter decides for a partition, by any row of it: it fails exactly when a key it names has no readable value there or, in a join's pruning, it is of keys only and errors; it is true of the partition, or rules it out, exactly when it is of keys only and true, or false or NULL, in the row. |
| Pruning.Scan.DecideAllByRows | src/planning/hive_multi_file_reader.cpp:1314-1330 | Taken in order, filters rule a partition out exactly when one is false of it and none before fails, and fail exactly when one fails and none before is false. |
| Pruning.Scan.KeptExactlyWhen | src/planning/hive_multi_file_reader.cpp:1301-1342 | A partition is read exactly when it is a candidate and no filter is false or NULL in its rows before one fails. |
| Pruning.Scan.NarrowedExactlyWhen | src/planning/hive_multi_file_reader.cpp:1404-1448 | Of filters that can be computed for it, a candidate partition is left by a scan that projects a key exactly when each filter of keys only is true in its rows. |
| Pruning.Scan.DecidedExactlyWhen | src/planning/hive_multi_file_reader.cpp:1335-1341 | A filter is taken out of the plan exactly when partitions are left and it is of keys only and true in the rows of all of them. |
| Pruning.Scan.PrunesExactlyWhen | src/planning/hive_multi_file_reader.cpp:1404-1501 | A pruning ends the query exactly when for some partition left a filter fails that none before it rules out; by the planner's filters only when a key is projected. |
| Pruning.Scan.PrunesTogether | src/planning/hive_multi_file_reader.cpp:1404-1448 | Filters left by one pruning are checked again together with those of the next. |
| Pruning.Scan.SelectedOnlyPass | src/planning/hive_multi_file_reader.cpp:1404-1501 | A row is selected as often as it is there, exactly when its partition is read and every filter left and every join's filter is true of it. |
| Pruning.CallEvaluates | src/planning/hive_multi_file_reader.cpp:1301-1342 | An expression has the value its operator gives the values of its arguments, and fails when one fails. |
| Pruning.ThreeValued | src/planning/hive_multi_file_reader.cpp:1301-1342 | Conjunction, disjunction and negation are those of three-valued logic, and an error on anything but truth values and NULL. |
| Pruning.Operators | src/planning/hive_multi_file_reader.cpp:1301-1342 | Comparisons and sums with NULL are NULL, a sum of more than 64 bits and mixed types are errors, and numbers and texts are compared as such. |
| Pruning.Scan.RowKept | src/planning/hive_multi_file_reader.cpp:1301-1342 | A row passes all filters exactly when its partition is kept and it passes the filters not decided. |
| Pruning.Scan.PartitionsToRead | src/planning/hive_multi_file_reader.cpp:1301-1342 | The loop fails exactly when a partition value can not be read, keeps exactly the partitions no filter rules out, in order, and calls a filter decided exactly when it is true of all of those and there is one. |
| Pruning.Scan.ComplexFilterPushdown | src/planning/hive_multi_file_reader.cpp:1404-1448 | The kept partitions and remaining filters are the specified ones; a scan of no key column keeps all of both. |
| Pruning.Scan.DynamicFilterPushdown | src/planning/hive_multi_file_reader.cpp:1450-1501 | A join's filters narrow the partitions and take nothing out of the plan; a filter that errors ends the query. |
| Pruning.Scan.PruningKeepsRow | src/planning/hive_multi_file_reader.cpp:1404-1501 | Over any sequence of static and dynamic prunings a row passes at the end exactly when it passes every filter ever given. |
| Pruning.Scan.PruningPreservesResults | src/planning/hive_multi_file_reader.cpp:1404-1501 | The rows selected after any sequence of prunings, in order, are those selected from all partitions by all filters in three-valued logic. |
| ViewWalker.QueryKept | src/catalog/glue_view_names.cpp:40-178 | For every query with nested, recursive and shadowing CTEs: a rewriting that keeps what each name means where it stands keeps what each table of the query means, and each CTE reference keeps its declaration. |
| ViewWalker.QueryAccepted | src/catalog/glue_view_names.cpp:40-178 | A query one pass accepted is accepted by every pass that refuses no name. |
| ViewScopes.CtesAreToldApart | src/catalog/glue_view_names.cpp:45-99 | Every CTE declaration of a query, recursive ones and those of nested subqueries included, has a place of its own, each CTE reference means the declaration at one of them, and a pass leaves each where it is: a CTE that keeps its place is the same CTE. |
| ViewScopes.QueryPlacesStay | src/catalog/glue_view_names.cpp:40-178 | A pass leaves every declaration of a query where it is. |
| ViewShapes.QueryDecided | src/catalog/glue_view_names.cpp:40-178 | A pass accepts a query exactly when nothing anywhere in it, in its CTEs and their keys, joins, pivots, set operations or subqueries, is of another kind than SELECT, set operation or recursive CTE, or a table function or other source, and the pass accepts each of its table names in the scope it stands in. |
| ViewShapes.QueryMeant | src/catalog/glue_view_names.cpp:51-137 | What a query means is one meaning for each table in it, in order: a CTE for a bare name that is one in scope there, and what the catalogs make of the name for any other. |
| ViewNames.ExternalIsInjective | src/catalog/glue_view_names.cpp:215-265 | The stored name of a catalog of another kind tells its kind and its alias. |
| ViewNames.StoringKeepsMeaning | src/catalog/glue_view_names.cpp:267-360 | Each stored name means, without a session, the table its name meant in the session that created the view; CTE names are left alone. |
| ViewNames.BareMeansTheFirst | src/catalog/glue_view_names.cpp:338-353 | A bare name means the table of the first place that has one, of temporary tables, the view's own schema and the search path. |
| ViewNames.StoredExactlyWhen | src/catalog/glue_view_names.cpp:181-360 | CREATE VIEW accepts a body exactly when it is of kinds a Glue view can store; each table that names a catalog is found there, in an allowed and usable one or a Glue catalog of the same region and endpoint with a known id; each bare one is a CTE in scope or first found in the view's own catalog; and no column is written with the name of the view's catalog or of one a table names. |
| ViewNames.AttachedAliases | src/catalog/glue_view_names.cpp:374-402 | Each id gets the alphabetically first alias of an attached catalog that stands for it, and only ids that have one. |
| ViewNames.AliasesAreUnique | src/catalog/glue_view_names.cpp:374-402 | The aliases found do not depend on the order in which the databases are visited. |
| ViewNames.ResolvingKeepsMeaning | src/catalog/glue_view_names.cpp:404-430 | Putting aliases for ids keeps what every name means, for any attachment of the same catalogs under other aliases. |
| ViewNames.ReadableExactlyWhen | src/catalog/glue_view_names.cpp:372-430 | A stored view can be read exactly when for every catalog id its tables name a catalog is attached: a usable one of that kind under that alias, or a Glue catalog of the same region and endpoint that is known by that id. |
| ViewNames.PinningKeepsMeaning | src/catalog/glue_view_names.cpp:432-443 | Once pinned, names mean the same for every search path and whatever catalog is attached under a schema's name. |
| ViewNames.ViewKeepsMeaning | src/catalog/glue_view_names.cpp:267-443 | The three passes together: in any session where the view can be read, each table of the body denotes the same catalog identity, schema and table, and each CTE name the declaration at the same place, as when the view was created. |
| ViewNames.ViewKeepsCtes | src/catalog/glue_view_names.cpp:267-443 | ... and that is the same CTE: after the three passes the declarations are at the places they were, which are all different. |
| HiveTypes.TypeReads | src/core/glue_types.cpp:104-292 | Followed by anything that may follow a type, a printed type parses to its signed, alias-free form and leaves what followed: arrays, maps, structs and decimals at any depth. |
| HiveTypes.StoredTypeReadsBack | src/core/glue_types.cpp:219-292 | Parsing what was printed for a type gives that type back with unsigned types widened and aliases stripped. |
| HiveTypes.ReadIsWidened | src/core/glue_types.cpp:104-217 | Whatever parses is a type DuckDB can have, already signed and without alias. |
| HiveTypes.ReadTypeReadsBack | src/core/glue_types.cpp:219-292 | Every parsed type that prints parses to itself again. |
| HiveGrammar.ReadExactlyWhen | src/core/glue_types.cpp:16-217 | A string is read as a type if and only if the grammar of type strings spells the type so: names and synonyms in any case, lengths, one or two decimal sizes, nesting, plain and quoted field names, whitespace anywhere between. |
| HiveGrammar.SpelledIsRead | src/core/glue_types.cpp:16-217 | Followed by anything that may follow a type, whatever the grammar spells is read as what it means. |
| HiveGrammar.ReadIsSpelled | src/core/glue_types.cpp:16-217 | Whatever is read is spelled by the grammar, text by text, as the type that was read. |
| HiveGrammar.LengthsMeanText | src/core/glue_types.cpp:155-163 | varchar and char, in any case and with any length up to the largest 64-bit integer, are text. |
| HiveGrammar.DecimalsMean | src/core/glue_types.cpp:135-154 | A bare decimal or numeric has 10 digits and scale 0, one number is the digits, two are digits and scale. |
| HiveGrammar.NamesMean | src/core/glue_types.cpp:164-213 | Every other name means its type, in any case: bool, integer, long, real and timestamp_with_local_time_zone too. |
| HiveGrammar.ZoneInWordsIsRefused | src/core/glue_types.cpp:55-67 | The false case: "timestamp with time zone" is among the names the parser compares with, but a name ends at its first space, so a type so written is refused. |
| HiveGrammar.WrittenByGluesName | src/core/glue_types.cpp:219-260 | Of a type's names it is written by the one Glue has. |
| HiveGrammar.WrittenExactlyWhen | src/core/glue_types.cpp:219-292 | A type can be written if and only if no part of it is of another kind, no struct in it is empty, and no field name is empty, holds one of : , < > ` or starts or ends with whitespace. |
| HiveTypeParser.GlueTypeParser.ParseType | src/core/glue_types.cpp:104-217 | The parser reads exactly the type its input means from its position on, moves exactly past it, fails exactly when there is none, and ends, since each type consumes input. |
| HiveTypeParser.GlueTypeParser.ParseFields | src/core/glue_types.cpp:120-136 | The loop over struct fields reads exactly the fields and consumes exactly them. |
| HiveTypeParser.GlueTypeParser.ReadFieldName | src/core/glue_types.cpp:65-90 | A plain name ends at a type's punctuation and loses its trailing spaces, a quoted one ends at its backtick. |
| HiveTypeParser.GlueTypeParser.Parse | src/core/glue_types.cpp:21-29 | A whole string is a type and nothing but spaces after it. |
| SchemaEvolution.AllowedIsTransitive | src/catalog/glue_schema_entry.cpp:691-720 | Allowed type changes compose. |
| SchemaEvolution.AllowedIsOneWay | src/catalog/glue_schema_entry.cpp:691-720 | Two types can be changed into each other only if they are the same or both texts. |
| SchemaEvolution.AllowedExactlyWhen | src/catalog/glue_schema_entry.cpp:691-720 | A column may change to text, an integer to one of more bytes, a FLOAT to a DOUBLE, and nothing else. |
| SchemaEvolution.AliasDoesNotCount | src/catalog/glue_schema_entry.cpp:691-720 | An alias on either side makes no difference, unless it is the only one. |
| SchemaEvolution.AddedExactlyWhen | src/catalog/glue_schema_entry.cpp:876-905 | ADD COLUMN puts one column after the others, unless a column or key has its name in any case or its type can not be written. |
| SchemaEvolution.RenamedExactlyWhen | src/catalog/glue_schema_entry.cpp:921-948 | RENAME COLUMN gives the column that has the name in any case the new one and changes nothing else, and is accepted exactly when no other column and no key has the new name and the table is not clustered by the column. |
| SchemaEvolution.RetypedExactlyWhen | src/catalog/glue_schema_entry.cpp:949-989 | ALTER COLUMN TYPE gives one column the new type and changes nothing else, and is accepted exactly when the column is no key, its type can be read, and the new one can be written and is an allowed change. |
| SchemaEvolution.ReplacedExactlyWhen | src/functions/glue_partition_functions.cpp:540-593 | glue_replace_columns gives every position its new name and type, and is accepted exactly when no name is a key's and each type, as it would be stored, is an allowed change of the column's. |
| SchemaEvolution.ChangeEvolves | src/catalog/glue_schema_entry.cpp:812-989 | Every accepted ADD, RENAME, ALTER COLUMN TYPE and glue_replace_columns leaves each column at its position with a type the earlier one may become, as stored and parsed again. |
| SchemaEvolution.LowerMeansAlike | src/planning/hive_multi_file_reader.cpp:216-262 | Lower-casing a type string, as the scan does before it parses it, changes nothing in what it means but the names inside nested types. |
| SchemaEvolution.EvolvedIsReadable | src/core/glue_types.cpp:320-328 | A column whose type only evolved passes the scan's check, whatever casts DuckDB makes on its own. |
| SchemaEvolution.ReadExactlyWhen | src/core/glue_types.cpp:320-328 | Between types without parts a partition's column is readable exactly when the change would be an allowed one or the cast is implicit, decimals apart. |
| SchemaEvolution.LeftToReader | src/core/glue_types.cpp:320-328 | Types that can not be parsed, nested types and two decimals always pass. |
| SchemaEvolution.CheckPartitionColumns | src/planning/hive_multi_file_reader.cpp:216-262 | The check passes exactly when each scanned column that the partition has at that position can be read as the table's. |
| SchemaEvolution.CsvTable.AlterColumns | src/catalog/glue_schema_entry.cpp:812-989 | The columns change as specified or not at all, and everything any partition declares stays something the table evolved from. |
| SchemaEvolution.CsvTable.ReplaceAll | src/functions/glue_partition_functions.cpp:540-593 | All columns are replaced or none, each only by one its old type may become. |
| SchemaEvolution.RunEvolves | src/catalog/glue_schema_entry.cpp:812-989 | Over any run of changes (refused ones included) and registrations partitions stay registered and every column ever declared stays at its position, as something the table evolved from. |
| SchemaEvolution.EveryPartitionIsReadable | src/planning/hive_multi_file_reader.cpp:216-262 | After any run each column of any partition registered at any time can be read as the table's column at its position. |
| SchemaEvolution.CsvTable.Run | src/catalog/glue_schema_entry.cpp:812-989 | The table after a run is the specified one. |
| SchemaEvolution.CsvTable.CheckPartition | src/planning/hive_multi_file_reader.cpp:216-262 | The scan's check by position passes for every partition of a table that kept the invariant. |
| TextRows.Dialect.EscapedOnce | src/planning/glue_hive_insert.cpp:130-144 | Escaping the escape character first and the delimiter next escapes each character exactly once. |
| TextRows.Dialect.OrderMatters | src/planning/glue_hive_insert.cpp:130-144 | The other order would escape a delimiter's escape again. |
| TextRows.Dialect.AcceptedExactlyWhen | src/planning/glue_hive_insert.cpp:79-103 | A text is accepted exactly when it has no line break, is not the NULL string, and, without an escape character, has no delimiter; a NULL always is, and is written as the NULL string. |
| TextRows.Dialect.PlainIsVerbatim | src/planning/glue_hive_insert.cpp:130-144 | An accepted text with nothing to escape is written as it is. |
| TextRows.Dialect.CharwiseIsClean | src/planning/glue_hive_insert.cpp:130-144 | An escaped text has no unescaped delimiter, line break or dangling escape, and unescapes to the text. |
| TextRows.Dialect.FileReads | src/planning/glue_hive_insert.cpp:452-528 | Every file of accepted rows splits and unescapes to exactly its rows that do not leave their line blank, in order, NULLs included, with and without an escape character. |
| TextRows.Dialect.LinesEnd | src/planning/glue_hive_insert.cpp:452-528 | Either line break ends a line and both together end one; a blank line is no row, and the last line needs no break. |
| TextRows.Dialect.FilesReadBackExactlyWhen | src/core/glue_info.cpp:198-271 | For every dialect the table checks let through: all accepted files read back if and only if the escape is not a line feed, the NULL string is free of unescaped line breaks and dangling escapes, and it is not the escaped form of another value. |
| TextRows.Dialect.UncleanNullBreaks | src/core/glue_info.cpp:198-204 | With a NULL string that ends its line or runs into the next field some accepted row of two fields reads back differently. |
| TextRows.Dialect.ClashingNullBreaks | src/planning/glue_hive_insert.cpp:79-103 | With a NULL string that is what another accepted value is written as, that value reads back as NULL. |
| TextRows.Dialect.LineFeedEscapeBreaks | src/core/glue_info.cpp:332-341 | With a line feed as escape character some accepted row reads back differently. |
| TextRows.Dialect.FileReadsBackExactlyWhen | docs/README.md:70 | A file of accepted rows of any width reads back as written if and only if none of its rows leaves its line blank. |
| TextRows.Dialect.BlankRowExactlyWhen | docs/README.md:70 | The one row that does is a single empty text, or a single NULL where the NULL string is empty. |
| TextRows.Dialect.EmptyTextIsLost | docs/README.md:70 | The false case: that row is accepted and reads as no row. |
| OpenCsv.Csv.DroppedOfDoubled | src/core/readers/hive_csv_options.cpp:24-27 | Dropping escapes with the field pattern after doubling each escape gives every text back. |
| OpenCsv.Csv.DroppedOnlyEscapes | src/planning/hive_multi_file_reader.cpp:1704-1727 | On any text dropping ends, never lengthens it, and leaves a text without escapes alone. |
| OpenCsv.Csv.QuotedReads | src/planning/glue_hive_insert.cpp:467-476 | What the csv writer puts between quotes, escaping quotes and escapes, reads back up to its closing quote, and no further. |
| OpenCsv.Csv.AcceptedExactlyWhen | src/planning/glue_hive_insert.cpp:467-476 | Every NULL is accepted, and every text without a line break. |
| OpenCsv.Csv.BackslashReads | src/planning/hive_multi_file_reader.cpp:1704-1727 | A backslash is dropped exactly when the table has no escape character and a backslash is neither its separator nor its quote. |
| OpenCsv.Csv.PlainFieldReads | src/planning/hive_multi_file_reader.cpp:1704-1727 | Fields without quotes, as other writers leave them, end at a separator, a line break or the end of the file. |
| OpenCsv.Csv.NothingAfterQuote | src/planning/glue_hive_insert.cpp:452-528 | Text between a closing quote and the next separator is refused. |
| OpenCsv.Csv.FieldReads | src/planning/glue_hive_insert.cpp:452-528 | A written field reads back through both escapings, a NULL as the empty text. |
| OpenCsv.Csv.RowReads | src/planning/glue_hive_insert.cpp:452-528 | Every accepted row, with anything after it, reads back field by field, and what follows is left. |
| InsertRouting.Target.RelativeIsThere | src/planning/glue_hive_insert.cpp:160-177 | The directory below the table computed for a writable partition is where the partition is registered, however its location is spelled. |
| InsertRouting.Target.RowReadsBack | src/planning/glue_hive_insert.cpp:188-232 | A row's rendered values read back as the row if and only if no value is one that reads as NULL. |
| InsertRouting.Target.FinalizedExisting | src/planning/glue_hive_insert.cpp:808-841 | A directory rows of an existing partition are sent to is registered as that partition's own values, canonical or not. |
| InsertRouting.Target.FinalizedNew | src/planning/glue_hive_insert.cpp:808-841 | A default directory is registered as the row's rendered values: reading its last components undoes building it. |
| InsertRouting.Target.DefaultIsFree | src/planning/glue_hive_insert.cpp:248-368 | For a row left to the default layout, a partition has the row's values exactly when it is registered at the row's default directory. |
| InsertRouting.Target.RoutedRowIsTyped | src/planning/glue_hive_insert.cpp:248-368 | A row the copy accepts is in a directory that Finalize registers as values that read back as the row, mismatching partitions or not. |
| InsertRouting.Target.RoutedRowIsRegistered | src/planning/glue_hive_insert.cpp:248-368 | ... and that is where a partition of these values is registered, or a place and values no partition has. |
| InsertRefusals.RoutedExactlyWhen | src/planning/glue_hive_insert.cpp:248-368 | What is done with every row: refused exactly when it would read back as NULL, when the first partition of its values that is not in the default layout has other column types or a directory with an empty or dot component, or when it has none such and another partition is at its default directory; and otherwise written to that partition's directory below the table, or to its own default one. |
| InsertRefusals.CaseExactlyWhen | src/planning/glue_hive_insert.cpp:290-350 | A partition's rows are left to the default layout exactly when it is there, spelled as the layout spells it and with the table's types; sent to a directory exactly when the partition is at it and none of its components is empty or a dot; and rejected by the copy exactly when it is outside the table. |
| InsertAgreement.OwnerOfFile | src/planning/hive_multi_file_reader.cpp:507-526 | A file directly in a directory belongs to a partition registered there, in any spelling. |
| InsertAgreement.SharingStaysFree | src/planning/glue_hive_insert.cpp:808-856 | An INSERT into partitions at locations of their own leaves all locations apart. |
| InsertAgreement.ScanAgreesWithInsert | src/planning/glue_hive_insert.cpp:248-368 | Each row the copy accepts is in a file that, after registration, a scan gives to exactly one partition, whose typed values are the row's: NULL and non-canonical values such as 01 included. |
| InsertAgreement.ReadsBackExactlyWhen | src/planning/glue_hive_insert.cpp:322-350 | With partitions at locations of their own, every accepted row of every INSERT reads back so if and only if, wherever a partition that declares other column types is registered at the default directory of a row that is not refused, some partition is registered with that row's values. |
| InsertAgreement.MismatchedReceivesOthers | src/planning/glue_hive_insert.cpp:322-350 | The false case: a partition with mismatching column types, at another row's default directory, receives that row. |
| InsertAgreement.MatchingRefusesOthers | src/planning/glue_hive_insert.cpp:352-366 | If the partition there declares the table's columns, the row is refused. |
| InsertRouting.Target.AllMatchIsApart | src/planning/glue_hive_insert.cpp:322-350 | It is enough that every partition declares the table's column types. |
| InsertFinalize.CreatePartitionPath | src/planning/glue_hive_insert.cpp:248-368 | The planning loop compares each partition's columns with the table's and builds exactly the specified CASE and the specified directories of existing partitions, with the first location of each values, and fails exactly when a partition's values can not be read. |
| InsertFinalize.FinalizeRouted | src/planning/glue_hive_insert.cpp:797-877 | For the files of accepted rows no directory fails to name a partition and no two are registered as one, so that all Finalize promises holds without further conditions. |
| InsertFinalize.RegisterAll | src/planning/glue_hive_insert.cpp:842-856 | The creates and the check together, whatever other writers do: success means that each partition is in Glue in the end, at its directory or where it was planned and written, unless another client removed it, and exactly the new ones were added when nobody else writes; failure means a fault of Glue, or a partition Glue had before its create that was planned elsewhere or is elsewhere in the end or was removed by another client. Nothing else changes. |
| ColumnTypes.FindPartitionColumn | src/core/glue_info.cpp:397-408 | The loop finds the partition's column at the position, or the first of the name in any case. |
| ColumnTypes.FindColumnTypeMismatch | src/core/glue_info.cpp:410-418 | It finds the first column of the table that the partition declares with another type, and none exactly when there is none. |
| ColumnTypes.UnreadableIsComparedAsText | src/core/glue_types.cpp:330-343 | A column type that can not be parsed is the same as another spelling exactly when both are alike in lower case and without whitespace. |
| ColumnTypes.AddedOrRenamedMatches | src/catalog/glue_schema_entry.cpp:812-989 | Adding or renaming columns of a csv table makes no partition mismatch. |
| ColumnTypes.RetypedMismatchesExactlyWhen | src/catalog/glue_schema_entry.cpp:812-989 | Changing a column's type makes the partitions registered before mismatch if and only if what is stored for the new type does not mean what the column was. |
| ColumnTypes.ReplacedMismatchesExactlyWhen | src/functions/glue_partition_functions.cpp:540-593 | Replacing all columns does exactly when that is so for one of them. |
| InsertFinalize.CollectDirectories | src/planning/glue_hive_insert.cpp:808-841 | Each directory written to is registered once, as its partition; it fails exactly when a directory names none. |
| InsertFinalize.DirectoryOfName | src/planning/glue_hive_insert.cpp:812 | The directory of a written file is what its path holds before the last slash. |
| InsertFinalize.RoutedInput | src/planning/glue_hive_insert.cpp:808-841 | A directory the copy was sent to is registered as routing said. |
| InsertFinalize.RoutedInputsAreDistinct | src/planning/glue_hive_insert.cpp:808-841 | For files of accepted rows no directory fails and no two directories are registered as one partition. |
| InsertFinalize.CheckExistingPartitionLocations | src/planning/glue_hive_insert.cpp:762-795 | It passes only if each partition that existed already was planned, or is seen by Glue, at the place written to, in any spelling; it fails only for a fault or for a partition planned, or seen, elsewhere or missing. |
| InsertFinalize.Finalize | src/planning/glue_hive_insert.cpp:797-877 | All or nothing on files, whatever other writers do: a normal end leaves every directory written to at its partition's location in Glue, or as planned, unless another client removed the partition; a failure has either removed all written files or says that removing failed, for a fault of Glue or a partition that Glue had and that is elsewhere or removed by others; no partition that is not written to changes. |
| InsertScan.RowsAreRegistered | src/planning/glue_hive_insert.cpp:808-856 | What Finalize registers for the files of the accepted rows is exactly one partition for each new values the rows have, at their directory. |
| InsertScan.CreatedIsInGlue | src/planning/glue_hive_insert.cpp:842-856 | Glue then holds the partitions before and those. |
| InsertScan.FinalizeRows | src/planning/glue_hive_insert.cpp:797-877 | For the files of exactly the accepted rows: each new values of the rows is one partition to be registered, and when no other client writes a normal end leaves in Glue the partitions before and exactly those. |
| InsertScan.WrittenRowIsRead | src/planning/glue_hive_insert.cpp:797-841 | From the rows to the scan: when an INSERT's partitions are in Glue as its end registers them, the planned listings of a scan find each written file of a row, not known to be empty and with a name a scan does not skip, for exactly one partition, whose typed values are the row's, exactly when the scan reads that partition and, if it is listed with the root, sees it from there. |
| InsertFinalize.Storage.RemoveFiles | src/planning/glue_hive_insert.cpp:857-875 | A removal that succeeds removes exactly the files; one that fails removes only some of them. |
| GlueService.DeleteAllMeans | src/api/glue_partition_api.cpp:239-286 | A delete request removes only what it names, keeps the rest, and every named partition left has an error. |
| GlueService.CreateAllMeans | src/api/glue_partition_api.cpp:490-588 | A create request keeps what there is, and every partition it sends is there or refused with an error. |
| GlueService.DistinctCreated | src/api/glue_partition_api.cpp:490-588 | Of distinct inputs each is created as sent or has an error. |
| GlueService.FatalExactlyWhen | src/api/glue_partition_api.cpp:161-165 | A request is in trouble for good exactly when it fails as a whole or refuses a partition with a code other than throttling, an internal error, a timeout or a conflict: those four are sent again. |
| GlueService.CreatesAtWill | src/api/glue_partition_api.cpp:490-588 | The modelled server is free: a partition it has it leaves and reports, and one it does not have it may create or not, each with any error or, created, without one. |
| GlueService.DeletesAtWill | src/api/glue_partition_api.cpp:239-286 | The same for deletes. |
| PartitionApi.LookUpBatch | src/api/glue_partition_api.cpp:185-227 | The loop over unprocessed keys ends against any server after at most 4n requests, since each makes the keys or the attempts fewer, and answers each key as Glue had it at a request; it fails only if a request failed or four in a row left keys unprocessed. |
| PartitionApi.PartitionLocations | src/api/glue_partition_api.cpp:185-227 | The same for any number of keys, in batches. |
| PartitionApi.LookupIsExact | src/api/glue_partition_api.cpp:185-227 | If nobody else writes meanwhile, the answer is exactly Glue's map on the keys. |
| PartitionApi.SortErrors | src/api/glue_partition_api.cpp:530-580 | Every error of a response goes either to what is sent again or to what existed already, under the index it was sent with, and with distinct errors no index twice; a last attempt sends nothing again. |
| PartitionApi.BatchDeletePartitions | src/api/glue_partition_api.cpp:239-286 | On normal return every partition named is gone (unless another client added it since), with at most 4 requests for each 25; nothing else is removed, on failure neither; it fails only if a request failed, was refused for good, or four in a row had errors. |
| PartitionApi.BatchCreatePartitions | src/api/glue_partition_api.cpp:490-588 | On normal return every input exists (unless another client removed it); of distinct inputs each is as asked for or reported as existing, at most once; at most 4 requests for each 100; nothing there before changes, on failure neither; it fails only for the same reasons as deleting. |
| AlterApply.CheckAll | src/functions/glue_partition_functions.cpp:822-878 | Whatever other clients write, the checks change nothing, refuse only a statement one of whose actions was seen to be impossible, and let through only one for each of whose actions every fact it needs was seen. |
| AlterApply.QuietChecks | src/functions/glue_partition_functions.cpp:822-878 | When nobody else writes the checks are exact: they refuse if and only if an action can not be done on the partitions there are, and keep what those are. |
| AlterTable.QuietCreated | src/functions/glue_partition_functions.cpp:897-903 | While nobody else writes, a flushed batch of adds is the adds one by one: the first of each values, and none over an existing partition. |
| AlterTable.QuietDeleted | src/functions/glue_partition_functions.cpp:907-914 | While nobody else writes, a flushed batch of drops removes exactly the partitions named. |
| AlterApply.Rewrite | src/functions/glue_partition_functions.cpp:932-952 | A rename, new location or new table location touches only the partitions it names, and holds afterwards unless another client undid it; when nobody else writes it is done as specified and against the version Glue has, also after an earlier action replaced the table, and fails only for a fault or when it can not be done. |
| AlterApply.ApplyAll | src/functions/glue_partition_functions.cpp:915-956 | Once all actions are taken, in batches or at once, what none names is left alone and what no later one speaks to holds unless undone by others; when nobody else writes, the partitions are what the actions make of them, and a failure met a fault or an action that can not be done. |
| AlterApply.GlueAlterTableApply | src/functions/glue_partition_functions.cpp:814-956 | For every statement, whatever other clients write: a refused one changes nothing; one that succeeds reports each action once, leaves the table at its last location, and each action no later one speaks to holds unless another client undid it; partitions it does not name are not touched, on failure neither. When nobody else writes and adds sent together differ, success leaves exactly what the actions do with renames as checked, and a failure after the checks met a fault of Glue or an action that can not be done after those before it. |
| AlterTable.EndsOneByOneExactlyWhen | src/functions/glue_partition_functions.cpp:865-941 | A statement that passes its checks ends as its actions one by one do if and only if no partition left at the end got another location before it was renamed and none since. |
| AlterTable.TakenOneByOneExactlyWhen | src/functions/glue_partition_functions.cpp:865-871 | What the statement does is its actions one by one, up to each of them, if and only if no partition it renames has got another location by then. |
| AlterTable.NamedOnceIsAsChecked | src/functions/glue_partition_functions.cpp:865-871 | It is enough that no partition to be renamed is named by an earlier action, whatever is registered. |
| AlterTable.NamesWhatItChanges | src/functions/glue_partition_functions.cpp:820-956 | An action names exactly the partitions it can change. |
| AlterTable.LocationIsLostOnRename | src/functions/glue_partition_functions.cpp:932-935 | The false case: SET LOCATION and then RENAME of one partition in one statement loses the new location. |
| Reclamation.StepKeepsSafe | src/catalog/glue_transaction_manager.cpp:14-57 | Each step of a transaction, lookup or change keeps: an entry a running transaction obtained is live in its set, or retired with a stamp above the transaction's sequence number; each entry is in one place; none is freed twice. |
| Reclamation.RunKeepsSafe | src/catalog/glue_transaction_manager.cpp:14-57 | So does every run. |
| Reclamation.HeldIsNeverFreed | src/catalog/glue_transaction_manager.cpp:43-57 | In every interleaving no entry that a running transaction obtained has been freed. |
| Reclamation.LastEndFreesAll | src/catalog/glue_transaction_manager.cpp:24-57 | When the last running transaction ends, every retired entry is freed. |
| Reclamation.LaterStartsDoNotKeep | src/catalog/glue_transaction_manager.cpp:48-57 | An entry is freed although transactions run that started after it was retired: only those that could have obtained it count. |
| Reclamation.GlueTables.StartTransaction | src/catalog/glue_transaction_manager.cpp:14-22 | A start takes the next sequence number and changes nothing else. |
| Reclamation.GlueTables.EndTransaction | src/catalog/glue_transaction_manager.cpp:24-41 | Commit and rollback end the transaction and free exactly what no running one can hold. |
| Reclamation.GlueTables.FreeRetiredEntries | src/catalog/glue_transaction_manager.cpp:48-57 | The loop keeps exactly the entries some running transaction started before the retirement of, in order, and frees the others. |
| Reclamation.GlueTables.OldestRunning | src/catalog/glue_transaction_manager.cpp:48-57 | The least sequence number of the running transactions, if one runs. |
| Reclamation.GlueTables.RetireEntry | src/catalog/glue_table_set.cpp:224-231 | The entry leaves the set and waits, stamped with the next sequence number; a name without one changes nothing. |
| Reclamation.GlueTables.CreateEntry | src/catalog/glue_table_set.cpp:211-217 | The new entry replaces the live one, which is retired. |
| Reclamation.GlueTables.GetEntry | src/catalog/glue_table_set.cpp:137-190 | A lookup returns an entry of the definition Glue has and the transaction then holds it; the live entry itself if its version is that; a missing table leaves no live entry; no other name changes. |
| MetadataCache.StepKeeps | src/include/catalog/glue_transaction.hpp:40-102 | Every interleaved step of lookups, loads, clears, bulk fetches and changes in Glue keeps the cache's invariant: one slot for a key between two clears, whose value stays, only one thread loads it, and a value loaded after the clear before the slot is at least as new as the table was at that clear. |
| MetadataCache.AnswersAreCoherent | src/include/catalog/glue_transaction.hpp:40-102 | In every interleaving all answers for a key between the same two clears are the same, and one loaded after the last clear before its lookup is no older than any change that clear followed. |
| MetadataCache.FreshExactlyWhen | src/include/catalog/glue_transaction.hpp:85-96 | In every interleaving each lookup answers with a definition loaded after the last clear before the lookup if and only if no bulk fetch that began before a clear fills an empty slot made after it: the guard of the branch that fills a slot. |
| MetadataCache.LoadsNeverOverlap | src/include/catalog/glue_transaction.hpp:85-96 | In every interleaving, late bulk fetches included, two loads of one slot never run at the same time. |
| MetadataCache.EndingAnswers | src/include/catalog/glue_transaction.hpp:85-96 | A lookup that ends without failing has answered with what its slot then holds, and nothing else is ever answered. |
| MetadataCache.BulkFetchAcrossClear | src/catalog/glue_table_set.cpp:101-131 | The false case: a bulk fetch that began before a clear and warms the cache after it makes later answers stale. |
| MetadataCache.GlueTransactionCache.FindEntry | src/include/catalog/glue_transaction.hpp:75-84 | Finding or making a slot, without regard to case, changes no value. |
| MetadataCache.GlueTransactionCache.Resolve | src/include/catalog/glue_transaction.hpp:85-96 | The value there, or else what is loaded, which stays unless the load found nothing; other keys are left alone. |
| MetadataCache.GlueTransactionCache.GetTable | src/include/catalog/glue_transaction.hpp:40-48 | The table's definition, or else what is loaded; no other key and no list of partitions changes. |
| MetadataCache.GlueTransactionCache.GetPartitions | src/include/catalog/glue_transaction.hpp:49-58 | The same for a table's list of partitions. |
| MetadataCache.GlueTransactionCache.Clear | src/include/catalog/glue_transaction.hpp:59-63 | Afterwards no key has a definition or a list of partitions. |
| Repair.ReadDiscoveredPartition | src/functions/glue_repair_table.cpp:70-103 | The loop reads exactly the values the first components of a path give the keys and the directory they make, or nothing. |
| Repair.RegisteredInOwnSpelling | src/functions/glue_repair_table.cpp:86-92 | A discovered value is registered in its type's own spelling, k=07 as 7 and TRUE as true, and a NULL as it is spelled. |
| Text.NoLeadingZero | src/functions/glue_repair_table.cpp:86-92 | That spelling of a number has no leading zeros. |
| Repair.DefaultDirectoryIsDiscovered | src/functions/glue_repair_table.cpp:70-103 | From anything below a default partition directory the row's canonical values and that directory are read back, for all rows, NULL and values that read as NULL included. |
| Repair.FindMissing | src/functions/glue_repair_table.cpp:124-172 | What is added has values and a location that Glue does not have, has no values twice, and is at the place of the first data file that asks for them; no file asks for a partition whose values and location are both missing. |
| Repair.LocationsDiffer | src/functions/glue_repair_table.cpp:124-172 | No location is registered twice either. |
| Repair.SecondRepairAddsNothing | src/functions/glue_repair_table.cpp:124-180 | A second repair over the same files has nothing to add. |
| Repair.GlueRepairTableApply | src/functions/glue_repair_table.cpp:124-180 | Whatever other clients write: what is added was missing when Glue was asked and is there afterwards, unless removed by others, and nothing else changes; when nobody else writes the partitions are those before and exactly those added; it fails only for a fault of Glue. |
| Repair.DefaultFileAsksForItsPartition | src/functions/glue_repair_table.cpp:139-166 | A visible file in a default partition directory asks for exactly the partition of the row's values there. |
| Repair.AskedExactlyWhen | src/functions/glue_repair_table.cpp:70-166 | A file asks for a partition exactly when it is a data file of the table and the first components of its directory give every key a value, in order: for these values at the directory these components are. |
| Repair.KeepsApartExactlyWhen | src/functions/glue_repair_table.cpp:132-166 | As a scan compares locations, repairs register none a partition has, whatever files there are, if and only if no partition in Glue is registered below the table at a visible <key>=<value> directory of values Glue does not have, in another spelling than the table's: decided from Glue's map and the table alone. |
| Repair.AskedIsMissed | src/functions/glue_repair_table.cpp:139-166 | A partition a file asks for, at a place where Glue has a partition in another spelling, is one of those. |
| Repair.FileThere | src/functions/glue_repair_table.cpp:139-166 | For each of those there is a data file that makes a repair register it again. |
| Repair.OneSpellingIsEnough | src/functions/glue_repair_table.cpp:132-166 | With the canonical spelling of the scheme in the table's and a partition's location the partition is none of those. |
| Repair.OtherSpellingIsMissed | src/functions/glue_repair_table.cpp:132-137 | The false case: a partition registered at s3a:// with other values is one of those, for every row whose default directory a scan can see. |

## Left out

- AlterApply.GlueAlterTableApply: says what several equal adds sent together leave only up to which of their locations is taken, because Glue may refuse the first and take the second.
- AlterApply.Rewrite: models of a partition's details only its location; what a stale check loses of other details (columns, parameters) is lost in the same way.
- MetadataCache.BulkFetchAcrossClear: models the bulk page as one definition fetched in one instant; how often a bulk fetch is made is not modelled.
- Sample.SampleRootPartitions: is stated for locations of which none is inside another, as the caller chooses it; paths that differ only in a slash at their end are not told apart in the order of the listing.
- Pruning.Scan.ComplexFilterPushdown: rewrites copies of filters; the original moves filter objects between two lists, which is modelled on values.
- ViewWalker.QueryKept: rewrites a query into a new one; the original changes table references in place, in an order that no reference depends on.
- OpenCsv.Csv.RowReads: is about separators, quotes and escapes that are different and no line breaks; DuckDB's csv options refuse the others, which is not part of this model.
- PartitionValues.StoredTextReadsBack: models bigint, boolean, varchar and blob keys; dates, decimals and the other key types are rendered and cast by DuckDB.
- ScanFiles.CheckPartitions: takes whether a partition is stored as its table is as given, because that compares formats and SerDe properties of the readers left out below; and finds a wrong number of values a little earlier than the original.
- InsertFinalize.Finalize: does not model the definition a CREATE TABLE AS fetches before it registers, nor faults injected for debugging.
- The merge of the segments that partitions are fetched in, which only concatenates them.
- Readers of Avro, JSON, ORC and Parquet files, conversions of fields after they are split, header lines and compression.
- ALTER TABLE on tables whose columns are matched by name: those may be dropped and added again with another type.
- EXPLAIN output, statistics, the cardinality estimate, listings kept between queries, serialization of plans.
- ATTACH, secrets, credentials, retries of whole HTTP requests and waiting between attempts.
- Creating and dropping tables, and dropping a created table when its transaction is rolled back.
