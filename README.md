# WACloud archive processor in Dafny

WACloud turns web archives (WARC files) into rows of a storage table or lines of
a text file. The archive processor reads each WARC file of a partition and skips
records of an unprocessed WARC-Type or with too large a content. Each remaining
record then goes through `process_record`:

- an allow-list of record IDs and the metadata filters (`RECORD_FILTERS`);
- a schema check of the record without its EXTRA list;
- the MIME type chooses a chain of algorithms, and this choice is cached per MIME value;
- every algorithm of the chain runs on a copy of the record. The copy is kept only when it still validates;
- the fields never saved are dropped;
- the record becomes an output row keyed by its ID without the `urn:uuid:` prefix.

Around this pipeline the processor:

- counts processed and failed records;
- keeps the list of harvests it has seen;
- writes its own status into a process table.

The storage client (`HBase`) retries a failed write a bounded number of times,
restarting its connection in between. It namespaces column names under `cf1:` and
turns every key and value into bytes.

The algorithms modelled are:

- the HTML text extractor (charset decision, jusText fall-backs, absolute links);
- the stop-word language guesser;
- the Flesch reading-ease scorer;
- the URL-based web-page type classifier;
- the base class whose `process` contains an algorithm's exceptions.

The utilities modelled are:

- WARC-name parsing;
- base64 (section 4 of RFC 4648);
- byte-order-mark detection;
- `strip_non_word_chars` and `ensure_str`.

One Dafny module per source file, plus three shared modules:

- `Common`: Python values, truthiness, the record, and insertion-ordered dicts;
- `PyStr`: the `str` operations the code relies on;
- `Config`: the constants of `config.py` and `metadata.py`.

Each source file maps to Dafny as follows:

- `ArchiveProcessor.py` is split in two:
  - `ArchivePipeline` holds the pipeline as functions: admission, routing, the chain, pruning and row building. The lemmas about them are there too.
  - `ArchiveProcessor` holds the processor as a class. Its MIME cache, counters, process info and accumulators are fields, updated in place by methods proved against those functions.
- In `HBase`, a `Store` class plays the remote tables. It has a failure oracle that says which remote call raises. A `Client` class holds the connection number and the table-handle cache.

Foreign libraries are function-typed parameters:

- the regular-expression engine for configured patterns;
- the JSON schema;
- BSON and JSON;
- lxml, jusText, pyphen, NLTK and urllib.

## Model

| member | source | states |
|---|---|---|
| ArchivePipeline.WithoutExtra | src/ArchiveProcessor.py:597-599 | the data validated is the record's data with exactly the EXTRA key removed and every other value kept |
| ArchivePipeline.AllowList | src/ArchiveProcessor.py:579 | the ID passes iff the allow-list is empty or names it; the membership test raises iff the list is non-empty and the ID is unhashable |
| ArchivePipeline.FilterVerdict | src/ArchiveProcessor.py:774-789 | the filters pass iff every filter's pattern matches its field; otherwise the first failing filter decides, and it raises exactly when that field is not a string |
| ArchivePipeline.AdmitPassIff | src/ArchiveProcessor.py:579-606 | a record is admitted iff it is allow-listed, passes every filter and validates without EXTRA |
| ArchivePipeline.InvalidRecordIsSkipped | src/ArchiveProcessor.py:595-606 | a listed, filtered record that fails validation is skipped (None, no failure counted), not an error |
| ArchivePipeline.EmptyAllowListFiltersNothing | src/ArchiveProcessor.py:579 | an empty allow-list admits exactly what a list naming the record's own ID admits |
| ArchivePipeline.ResponseCodeFilter | src/ArchiveProcessor.py:784-789 | a truthy non-string response code makes the filter check raise; an absent or falsy one is matched as '' |
| ArchivePipeline.FirstChain | src/ArchiveProcessor.py:746-751 | None iff no group pattern matches the MIME type; otherwise the chain of the first matching group, all earlier groups failing |
| ArchivePipeline.Resolve | src/ArchiveProcessor.py:725-755 | lookup of a string MIME value is FirstChain; an unhashable value, or a non-string one with groups configured, raises |
| ArchivePipeline.NoChainsNoProcessing | src/ArchiveProcessor.py:753-755 | with no chains configured every hashable MIME value maps to None |
| ArchivePipeline.FirstGroupWins | src/ArchiveProcessor.py:746-751 | groups appended after a matching one never change the chain chosen |
| ArchivePipeline.StepRollsBack | src/ArchiveProcessor.py:627-641 | an algorithm output that fails validation is discarded: the record passes on unchanged |
| ArchivePipeline.RaisedCopyIsValidated | src/ArchiveProcessor.py:627-641 | an algorithm that raises hands on its partially changed copy, which is kept iff it validates |
| ArchivePipeline.ChainKeepsValid | src/ArchiveProcessor.py:623-641 | running a chain on a valid record always yields a valid record |
| ArchivePipeline.ChainAppend | src/ArchiveProcessor.py:624 | running chain a then chain b equals running their concatenation |
| ArchivePipeline.RejectedChainChangesNothing | src/ArchiveProcessor.py:629-641 | a chain whose every output is invalid leaves the record as it was |
| ArchivePipeline.Pruned | src/ArchiveProcessor.py:757-772 | the pruned record has the original keys minus UNNECESSARY_FIELDS, the same values and the same revisit flag |
| ArchivePipeline.RecordKey | src/ArchiveProcessor.py:712-723 | a row key exists iff the ID is a string (re.sub raises otherwise) |
| ArchivePipeline.KeyStripsPrefix | src/ArchiveProcessor.py:722 | exactly one leading 'urn:uuid:' is removed and the rest is kept whole |
| ArchivePipeline.KeyOfPlainId | src/ArchiveProcessor.py:722 | an ID without the prefix is its own key |
| ArchivePipeline.SeparateColsDistinct | src/config.py:121 | the separately saved columns are pairwise distinct |
| ArchivePipeline.RowShapes | src/ArchiveProcessor.py:685-710 | a built row starts with the stripped key; in extra mode the rest is EXTRA; otherwise one value per separate column (default '') and then a dict of exactly the remaining fields |
| ArchivePipeline.PrunedRowHasNoUnnecessaryField | src/ArchiveProcessor.py:757-772 | the remaining-data dict of a pruned record's row holds no UNNECESSARY_FIELDS key |
| ArchivePipeline.RejectedBeforeAnyAlgorithm | src/ArchiveProcessor.py:579-606 | a record turned away at admission yields the same non-saved result whatever the algorithms do |
| ArchivePipeline.UnmappedMimeDrops | src/ArchiveProcessor.py:612-616 | an unmapped MIME type (absent read as '') drops the record, revisit or not |
| ArchivePipeline.RevisitRunsNoAlgorithm | src/ArchiveProcessor.py:618-621 | a revisit with a mapped MIME type is finished as it came, with no algorithm run |
| ArchivePipeline.SeqAlgAccepts | src/ArchiveProcessor.py:854-876 | seq_alg accepts iff there is a ':' and the text before the first one is a configured group; no parsed name contains ',' |
| ArchivePipeline.SeqAlgSplitsAtFirstColon | src/ArchiveProcessor.py:865-875 | the group is the text before the first ':'; joining the names with ',' gives back all that follows (further ':' included); an empty tail gives [] |
| ArchivePipeline.SeqAlgNeedsColon | src/ArchiveProcessor.py:864-870 | a string without ':' is refused with ArgumentTypeError |
| ArchivePipeline.EligibleRecords | src/ArchiveProcessor.py:431-444 | a partition never yields more records than it has entries |
| ArchivePipeline.EligibleRecordsSnoc | src/ArchiveProcessor.py:431-444 | a further entry adds itself, offset set, exactly when its WARC-Type is processed and its length within the limit |
| ArchivePipeline.EligibleRecordsAppend | src/ArchiveProcessor.py:431-444 | the eligible records of two files read in turn are those of each, in order |
| ArchivePipeline.EligibleRecordsCount | src/ArchiveProcessor.py:431-437 | if all entries are eligible, all are processed; if none is, nothing is |
| ArchivePipeline.FlattenMembers | src/ArchiveProcessor.py:312-315 | an id is in the flattened list iff it is in some per-worker list |
| ArchivePipeline.FlattenSnoc | src/ArchiveProcessor.py:312-315 | one more worker list adds its items at the end |
| ArchivePipeline.HarvestList | src/ArchiveProcessor.py:309-316 | the reported harvests are strictly sorted and are exactly the ids found in some per-worker list |
| ArchivePipeline.HarvestListIgnoresGrouping | src/ArchiveProcessor.py:309-316 | the harvest list depends only on which ids occur, not on their spread over workers or repetitions |
| ArchiveProcessor.OutputFormat | src/ArchiveProcessor.py:187-192 | storage table iff asked for; extra text file iff neither storage nor a text file is asked for |
| ArchiveProcessor.ListAccumulator.constructor | src/ArchiveProcessor.py:71-81 | a new accumulator holds the empty list |
| ArchiveProcessor.ListAccumulator.AddInPlace | src/ArchiveProcessor.py:83-95 | adding appends the value at the end |
| ArchiveProcessor.InitAlgorithms | src/ArchiveProcessor.py:234-244 | the table exists iff every named algorithm can be built; it has one distinct instance per distinct name across all chains |
| ArchiveProcessor.SplitSeparateCols | src/ArchiveProcessor.py:705-709 | popping the separate columns gives their values ('' when absent) and leaves exactly the other fields |
| ArchiveProcessor.InstantiateAll | src/ArchiveProcessor.py:242-244 | one fresh, distinct instance per name, and none at all if some name cannot be built |
| ArchiveProcessor.Zip | src/ArchiveProcessor.py:826 | zip pairs names and values position by position, as many as the shorter list |
| ArchiveProcessor.OutputColumnsDistinct | src/ArchiveProcessor.py:217 | the output column names, 'IF' included, are distinct |
| ArchiveProcessor.SavedColumns | src/ArchiveProcessor.py:824-827 | a saved standard row names each separate column with its field's value and 'IF' with the remaining data, no column lost |
| ArchiveProcessor.WithStatus | src/ArchiveProcessor.py:302-308 | the status is set, the finishing time only for a final status, and every other entry and key order kept |
| ArchiveProcessor.WithTotals | src/ArchiveProcessor.py:317-321 | the counters and the harvest list are set, every other entry kept |
| ArchiveProcessor.UpdatedInfo | src/ArchiveProcessor.py:302-321 | the update raises iff totals are folded and some harvest id is not a string (a stricter rule than Python's sort, see Left out); otherwise status, finishing time, counters and sorted harvests are set and nothing else changes |
| ArchiveProcessor.ArchiveProcessor.Results | src/ArchiveProcessor.py:443-444 | one result per record processed |
| ArchiveProcessor.ArchiveProcessor.constructor | src/ArchiveProcessor.py:129-217 | output format chosen, one instance per algorithm name, empty cache and counters, the initial process info, output columns OUTPUT_SEPARATE_COLS + ['IF']; the store is touched only when writing to it |
| ArchiveProcessor.ArchiveProcessor.CheckStorageTables | src/ArchiveProcessor.py:228-232 | the table check only happens when writing to the storage table |
| ArchiveProcessor.ArchiveProcessor.GetAlgseqForMime | src/ArchiveProcessor.py:725-755 | the answer is Resolve; a resolved answer, None included, is cached under the MIME value, an already cached value leaves the cache alone, a raise caches nothing |
| ArchiveProcessor.ArchiveProcessor.ApplyChain | src/ArchiveProcessor.py:623-641 | the chain loop computes RunChain |
| ArchiveProcessor.ArchiveProcessor.DropUnnecessaryFields | src/ArchiveProcessor.py:757-772 | the deletion loop computes Pruned |
| ArchiveProcessor.ArchiveProcessor.DecomposeRecord | src/ArchiveProcessor.py:685-710 | the row built in place is OutputRow for the configured mode |
| ArchiveProcessor.ArchiveProcessor.UpdateProcStatus | src/ArchiveProcessor.py:287-325 | the process info becomes UpdatedInfo (totals only when asked and accumulators exist); unless the fold raised, the store becomes ProcessRowEffect of the new info, and it is untouched otherwise |
| ArchiveProcessor.ArchiveProcessor.PutProcessInfo | src/ArchiveProcessor.py:322-325 | the tables and failure oracle become ProcessRowEffect: in storage mode the put of the info under the process id into the process table, otherwise nothing |
| ArchiveProcessor.ArchiveProcessor.PutHarvestRow | src/ArchiveProcessor.py:667-678 | the store becomes HarvestRowEffect: has_row first, then the {type, date} row put only when it found none; raises iff the row was not found and the WARC file name is not a string |
| ArchiveProcessor.ArchiveProcessor.HarvestRowWrittenOnce | src/ArchiveProcessor.py:662-678 | on an enabled harvest table whose first write does not fail, a check leaves a row a later check finds; that check writes nothing and does not raise; a row written holds the converted type and date |
| ArchiveProcessor.ArchiveProcessor.ProcessRowWritten | src/ArchiveProcessor.py:322-325 | in storage mode, with an enabled process table and a first attempt that does not fail, the process id's row holds every column of the info; otherwise the tables stay |
| ArchiveProcessor.ArchiveProcessor.CheckHbaseHarvestTable | src/ArchiveProcessor.py:655-683 | a falsy or already listed harvest changes nothing; a new one goes through HarvestRowEffect and raises exactly when it does; otherwise it joins the worker's list, the status becomes running and the process row is written as ProcessRowEffect says; the listed harvests never change |
| ArchiveProcessor.ArchiveProcessor.ProcessRecord | src/ArchiveProcessor.py:567-653 | the result is the pipeline's (Expected) whenever the harvest check cannot raise, else possibly a failure; a rejected record changes nothing; outside storage mode no storage state changes; the worker's list grows by exactly NewHarvest |
| ArchiveProcessor.ArchiveProcessor.ProcessChecked | src/ArchiveProcessor.py:582-653 | after admission: the pipeline's result unless the harvest check raises, and the worker's list grows by NewHarvest |
| ArchiveProcessor.ArchiveProcessor.ProcessAdmitted | src/ArchiveProcessor.py:612-646 | routing, chain and finishing compute Processed; only the MIME cache changes |
| ArchiveProcessor.ArchiveProcessor.FinishRecord | src/ArchiveProcessor.py:644-646 | pruning and decomposition compute Finish; a saved row is non-empty |
| ArchiveProcessor.ArchiveProcessor.ProcessRecordCatchErrors | src/ArchiveProcessor.py:543-565 | a raise adds exactly one failure and gives None; a skipped record adds none; otherwise the row is the pipeline's and the worker's list grows by NewHarvest |
| ArchiveProcessor.ArchiveProcessor.ProcessEntry | src/ArchiveProcessor.py:432-443 | an entry is skipped iff it is not eligible, counting nothing and adding no harvest; else it is processed with its offset set, giving the pipeline's row, failure and new harvest |
| ArchiveProcessor.ArchiveProcessor.ResultsSnoc | src/ArchiveProcessor.py:443-444 | one more record adds its row, its failures and its new harvest to those before |
| ArchiveProcessor.ArchiveProcessor.ProcessWarcPartition | src/ArchiveProcessor.py:431-444 | one result per eligible record, in file order; the rows, the added failures and the worker's new harvests are those of the pipeline on each eligible record; the listed harvests never change |
| ArchiveProcessor.ArchiveProcessor.PartitionStep | src/ArchiveProcessor.py:431-444 | one loop step keeps the rows, failures and worker harvests equal to those of the eligible prefix |
| ArchiveProcessor.ArchiveProcessor.ProcessWarcFiles | src/ArchiveProcessor.py:459-489 | fresh counters; when no harvest check can raise, the rows are AllRows (the pipeline's rows of every partition in order, None filtered out), the failures AllFailures and the driver's list one worker list per partition (AllHarvests) |
| ArchiveProcessor.ArchiveProcessor.RunPartition | src/ArchiveProcessor.py:486-489 | a partition's kept rows are the present rows of its pipeline results, its failures are added, and its worker list, NewHarvests of its records, joins the driver's |
| ArchiveProcessor.ArchiveProcessor.AllRowsStep | src/ArchiveProcessor.py:486-489 | one more partition adds its rows, failures and worker list to those before |
| ArchiveProcessor.ArchiveProcessor.AllHarvests | src/ArchiveProcessor.py:459-461 | the driver's list has one entry per partition, each the new harvests of that partition's eligible records |
| ArchiveProcessor.ArchiveProcessor.ResultsAppend | src/ArchiveProcessor.py:431-444 | the rows and failures of records read one after another are those of each part, in order |
| ArchiveProcessor.ArchiveProcessor.AllRowsFlat | src/ArchiveProcessor.py:483-489 | how the WARC files are split into partitions changes neither the rows nor the failures: they are those of all eligible records read in order |
| ArchiveProcessor.ArchiveProcessor.SavePartitionHappybase | src/ArchiveProcessor.py:808-832 | which puts succeed and the tables and oracle afterwards are SaveAll of the rows in order; each row adds one to exactly one counter: processed when its put succeeds, failed otherwise |
| ArchiveProcessor.ArchiveProcessor.SaveCounted | src/ArchiveProcessor.py:825-831 | one row's put as SaveOne, and exactly one counter moves |
| ArchiveProcessor.SaveRow | src/ArchiveProcessor.py:825-827 | the put of the row (key first, the rest named by the columns) into the main table leaves the success, tables and oracle SaveOne gives |
| ArchiveProcessor.SaveAll | src/ArchiveProcessor.py:820-831 | one success flag per row |
| ArchiveProcessor.SaveAllStep | src/ArchiveProcessor.py:820-831 | one more row is saved on the store the earlier rows left |
| ArchiveProcessor.SaveAllOtherTables | src/ArchiveProcessor.py:820-831 | saving a partition changes no table but the main one and creates none |
| ArchiveProcessor.SaveAllSavedPresent | src/ArchiveProcessor.py:820-831 | every row whose put succeeded has its key in the main table afterwards |
| ArchiveProcessor.SaveOneKeepsRows | src/ArchiveProcessor.py:825-827 | one put keeps every row of the main table and adds the key when it succeeds |
| ArchiveProcessor.SaveAllReliable | src/ArchiveProcessor.py:820-831 | on an enabled main table and a store that never fails, every put succeeds |
| ArchiveProcessor.CountSplits | src/ArchiveProcessor.py:828-831 | successes and failures add up to the rows saved |
| BaseAlgorithms.Process | src/BaseAlgorithms.py:62-71 | process returns what _process returns, or on a raise the record as _process left it |
| BaseAlgorithms.BaseProcessImpl | src/BaseAlgorithms.py:58-60 | the base _process raises before changing the record |
| BaseAlgorithms.BaseProcessIsIdentity | src/BaseAlgorithms.py:58-71 | process on a bare base algorithm returns its input |
| BaseAlgorithms.ProcessContainsEarlyRaise | src/BaseAlgorithms.py:62-71 | a raise before any change cannot be told apart from returning the record |
| BaseAlgorithms.BaseAlgorithm.constructor | src/BaseAlgorithms.py:24-36 | the logger is named after the class |
| BaseAlgorithms.BaseAlgorithm.Init | src/BaseAlgorithms.py:38-40 | the default _init changes nothing |
| Utils.Basename | src/utils.py:34 | the base name holds no '/' |
| Utils.ParseBase | src/utils.py:35-43 | None iff the pattern matches nowhere; else name is the longest first group, date the 8 digits after it, type the name up to its first '-' |
| Utils.WarcNameToHarvestInfo | src/utils.py:15-44 | the harvest info is that of the path's base name |
| Utils.HarvestInfoOfPath | src/utils.py:34 | the directory part of the path never matters |
| Utils.BytesToBase64Shape | src/utils.py:47-75 | the encoding has 4 characters per started group of 3 bytes, all from the alphabet except trailing '=' |
| Utils.Base64RoundTrip | src/utils.py:47-89 | decoding the encoding of any byte string gives it back |
| Utils.Group3RoundTrip | src/utils.py:47-89 | a full leading group round-trips in front of a round-tripping rest |
| Utils.Group2RoundTrip | src/utils.py:78-89 | a final two-byte group round-trips |
| Utils.Group1RoundTrip | src/utils.py:78-89 | a final one-byte group round-trips |
| Utils.DecodeGroup3 | src/utils.py:78-89 | a full group decodes to its three bytes |
| Utils.DecodeGroup2 | src/utils.py:78-89 | a padded two-byte group decodes to its bytes |
| Utils.DecodeGroup1 | src/utils.py:78-89 | a padded one-byte group decodes to its byte |
| Utils.DecodeEncodeSextet | src/utils.py:47-89 | the alphabet maps each 6-bit value to a character that maps back to it |
| Utils.FirstBom | src/utils.py:168-178 | None iff no mark prefixes the text; else the encoding of the first mark in order that does |
| Utils.Utf32LeBeforeUtf16Le | src/utils.py:168-178 | FF FE 00 00 gives utf-32-le although the utf-16-le mark also prefixes it |
| Utils.NoBomForPlainText | src/utils.py:158-178 | text starting with a printable ASCII character has no mark |
| Utils.StripNonWordChars | src/utils.py:214-228 | the result is empty or starts and ends alphanumeric, is a slice of the input with only non-alphanumerics cut on either side, and is empty when the input has no alphanumeric |
| Utils.StripNonWordCharsIdempotent | src/utils.py:228 | stripping twice strips nothing more |
| Utils.StripNonWordCharsExamples | src/utils.py:228 | '.-%text!>_' gives 'text' and 'te_*xt*' gives 'te_*xt' |
| Utils.EnsureStrKeepsText | src/utils.py:199-211 | text is returned unchanged, so applying it twice is applying it once |
| Utils.Utf8Encode | src/HBase.py:354-366 | UTF-8 takes one to four bytes per character |
| Utils.Utf8EncodeAscii | src/HBase.py:354-366 | ASCII text encodes to its own code points, one byte each |
| Utils.Utf8EncodeAppend | src/HBase.py:354-366 | encoding distributes over concatenation |
| HBase.PutRow | src/HBase.py:191 | writing a row sets the given columns, keeps the row's other columns and every other row |
| HBase.CheckedTables | src/HBase.py:83-101 | afterwards the table exists and is enabled; an absent one is created empty with the given versions; other tables are untouched |
| HBase.CheckedTablesKeepsEnabled | src/HBase.py:93-95 | an existing enabled table is left alone |
| HBase.CheckedTablesIdempotent | src/HBase.py:83-101 | a second check changes nothing |
| HBase.Store.TablePut | src/HBase.py:191 | a remote write consumes one oracle step and succeeds iff the table is writable and the step does not fail; only then is the row written |
| HBase.Store.TableRow | src/HBase.py:230 | a remote read consumes one step and gives the row (empty when absent) iff it does not fail |
| HBase.ToBytes | src/HBase.py:336-389 | bytes unchanged, text as UTF-8, a dict as BSON when asked, anything else as JSON then UTF-8; a serialiser failure gives b'' |
| HBase.ToBytesText | src/HBase.py:354-381 | text converts without consulting the serialisers, and ASCII text byte for byte |
| HBase.ToBytesExample | src/HBase.py:378-381 | 'kůň' becomes 6B C5 AF C5 88 |
| HBase.Namespace | src/HBase.py:181-183 | every column starts with 'cf1:', added only when missing |
| HBase.NamespaceIdempotent | src/HBase.py:182-183 | namespacing twice adds nothing |
| HBase.EncodeRowColumns | src/HBase.py:179-185 | the row built has exactly the namespaced columns of the data's keys |
| HBase.EncodeRowLastWins | src/HBase.py:179-185 | a column holds the converted value of the last key written to it |
| HBase.EncodeRowExample | src/HBase.py:179-185 | {'datakey': 'value'} is written as b'cf1:datakey' mapped to b'value' |
| HBase.MaxAttempts | src/HBase.py:187-209 | put makes max(max_fails, 1) attempts at most |
| HBase.FirstSuccess | src/HBase.py:187-209 | the first attempt the store accepts, every earlier one having failed |
| HBase.PutFirst | src/HBase.py:187-209 | the succeeding attempt is within the allowed number |
| HBase.PutAttempts | src/HBase.py:187-209 | put makes between one and the allowed number of attempts |
| HBase.PutEffectSucceeds | src/HBase.py:187-209 | a put succeeds iff the table is writable and some allowed attempt does not fail; a failed put uses every attempt and writes nothing |
| HBase.Client.constructor | src/HBase.py:34-39 | the address is stored, a first connection is open and the cache is empty |
| HBase.Client.RestartConnection | src/HBase.py:45-49 | a new connection and an empty handle cache |
| HBase.Client.GetTable | src/HBase.py:135-149 | the handle of the open connection for the table, and it is cached under its name |
| HBase.Client.HasTable | src/HBase.py:55-66 | true iff the table exists |
| HBase.Client.CheckTable | src/HBase.py:83-101 | the tables become CheckedTables |
| HBase.Client.CheckTables | src/HBase.py:113-119 | main, harvest, config and process tables are checked with 1, 1, 100 and 1 versions |
| HBase.Client.DeleteTable | src/HBase.py:121-133 | the table is gone and no other table changes |
| HBase.Client.EncodeData | src/HBase.py:179-185 | the loop builds EncodeRow |
| HBase.Client.Put | src/HBase.py:151-209 | true iff some allowed attempt succeeds; attempt k succeeding means k-1 restarts; the row is written only on success and nothing raises |
| HBase.Client.GetRow | src/HBase.py:211-232 | None iff the read fails, else the row's columns (empty when absent); nothing is written |
| HBase.Client.HasRow | src/HBase.py:234-251 | true iff the read succeeds and gives a non-empty row |
| HBase.PutRowReadsBack | src/HBase.py:234-251 | a row put with some data then reads back as present and non-empty |
| HBase.PutEffectFound | src/HBase.py:187-251 | after a put of some data succeeds, a has_row whose read does not fail finds the row |
| HBase.PutThenHasRow | unit_tests/test_HBase.py:21-34 | on a store that never fails, check then put then has_row is true |
| HBase.DeleteSession | unit_tests/test_HBase.py:40-42 | a checked table exists, and deleting it leaves no table |
| LanguageIdentification.NormaliseWords | src/LanguageIdentification.py:42-44 | the counted words are at most the tokens and none is empty |
| LanguageIdentification.Hits | src/LanguageIdentification.py:55-56 | a language cannot have more hits than there are words |
| LanguageIdentification.HitsAppend | src/LanguageIdentification.py:55 | every occurrence counts: hits add up over concatenation |
| LanguageIdentification.MinCount | src/LanguageIdentification.py:49 | the threshold is the larger of the count and the ratio times the word count |
| LanguageIdentification.LineLen | src/LanguageIdentification.py:107 | the first line is the longest run without a line break |
| LanguageIdentification.Lines | src/LanguageIdentification.py:107 | no line holds a line break |
| LanguageIdentification.SplitFirstWord | src/LanguageIdentification.py:111 | a string starting non-blank splits with its leading run first |
| LanguageIdentification.FirstWord | src/LanguageIdentification.py:108-111 | a non-blank line has a non-empty first word |
| LanguageIdentification.LineWords | src/LanguageIdentification.py:107-113 | each line contributes nothing when blank, else its lowercased first word |
| LanguageIdentification.FirstWordIsLowerToken | src/LanguageIdentification.py:111 | the first word is lower case and holds no whitespace |
| LanguageIdentification.StoplistEntriesAreLowerTokens | src/LanguageIdentification.py:107-114 | every stoplist entry is a non-empty lower-case token |
| LanguageIdentification.NormalisedWordsAreLower | src/LanguageIdentification.py:44 | every counted word is in lower case |
| LanguageIdentification.LanguageIdentifier.constructor | src/LanguageIdentification.py:19-21 | the identifier holds the loaded stoplists |
| LanguageIdentification.LanguageIdentifier.GuessLang | src/LanguageIdentification.py:23-66 | None iff no word remains or no language qualifies; otherwise a language with the largest qualifying count, the earliest on a tie |
| LanguageIdentification.PickLanguage | src/LanguageIdentification.py:51-60 | the arg-max loop returns None iff none qualifies (zero hits never do), else the first language with the strictly largest count |
| LanguageIdentification.LoadStoplist | src/LanguageIdentification.py:81-114 | ValueError iff neither the path nor its base name can be read; else the stoplist of the first readable one |
| LanguageIdentification.ParseStoplist | src/LanguageIdentification.py:107-114 | the lowercased first word of each non-blank line, in file order |
| LanguageIdentification.LoadStoplists | src/LanguageIdentification.py:68-79 | every configured stoplist in order, failing iff some file cannot be read |
| LanguageIdentification.LoadStoplistsFrom | src/LanguageIdentification.py:76-79 | the same for any list of (language, file) pairs |
| TextExtraction.ContentType | src/TextExtraction.py:209 | missing or falsy headers give the empty Content-Type |
| TextExtraction.Declared | src/TextExtraction.py:211-213 | a declared charset is a candidate, lowercased, iff the codec registry knows it |
| TextExtraction.TheOnly | src/TextExtraction.py:232 | popping a one-element set gives its element |
| TextExtraction.BomDecidesAlone | src/TextExtraction.py:203-206 | a known byte order mark decides, tagged 'BOM-based', whatever the headers say |
| TextExtraction.CandidatesAreLower | src/TextExtraction.py:212-226 | every candidate is lower case, so case variants collapse |
| TextExtraction.CharsetByCandidates | src/TextExtraction.py:228-235 | no candidate: guessed; one: declared; several: resolved by a guess over them |
| TextExtraction.GoodParagraphs | src/TextExtraction.py:144-146 | exactly the paragraphs classed 'good' are kept |
| TextExtraction.ApplyUpdate | src/TextExtraction.py:119-120 | a fall-back changes one setting of a copy of the base setting |
| TextExtraction.FallbackFirstNonEmpty | src/TextExtraction.py:114-123 | the fall-backs stop at the first setting finding good paragraphs; none found iff every setting finds none |
| TextExtraction.Texts | src/TextExtraction.py:124 | the texts of the paragraphs, in order |
| TextExtraction.PlainTextTrimmed | src/TextExtraction.py:124-125 | the plain text neither starts nor ends with whitespace |
| TextExtraction.AbsLinks | src/TextExtraction.py:174-190 | the links are exactly the non-empty hrefs, resolved when a base is given, that have a scheme and a network location |
| TextExtraction.WithLinks | src/TextExtraction.py:99-103 | setting the links changes no other field |
| TextExtraction.MetadataFields | src/TextExtraction.py:148-172 | metadata writes only language, title and headlines, headlines always |
| TextExtraction.NonEmptyStrs | src/TextExtraction.py:169-170 | only non-empty headlines are kept |
| TextExtraction.ProcessSpec | src/TextExtraction.py:53-64 | whitespace-only or oversized content leaves the record unchanged |
| TextExtraction.ProcessWritesOnlyItsFields | src/TextExtraction.py:53-134 | extraction writes only language, title, headlines, links and plain text |
| TextExtraction.PageWritesOnlyItsFields | src/TextExtraction.py:89-134 | the parsed-page part writes only those fields too |
| TextExtraction.PlainTextOnlyForSupportedLanguage | src/TextExtraction.py:105-133 | plain text is set only for a language (Czech by default) with a jusText stoplist, and it is the joined good paragraphs jusText finds in the record's content with that stoplist and the charset the page was decoded with |
| TextExtraction.HTMLTextExtractor.constructor | src/TextExtraction.py:28-51 | the extractor holds its libraries |
| TextExtraction.HTMLTextExtractor.GetCharset | src/TextExtraction.py:199-235 | _get_charset computes CharsetOf |
| TextExtraction.HTMLTextExtractor.CollectCharsets | src/TextExtraction.py:201-226 | the set filled step by step is Candidates |
| TextExtraction.HTMLTextExtractor.ExtractParagraphs | src/TextExtraction.py:113-123 | the base run and the fall-back loop compute Paragraphs |
| TextExtraction.HTMLTextExtractor.Process | src/TextExtraction.py:53-134 | _process computes ProcessSpec |
| SOUAlgorithms.CollapseHyphens | src/SOUAlgorithms.py:87 | collapsing never lengthens and keeps the first character |
| SOUAlgorithms.CollapseHyphensFacts | src/SOUAlgorithms.py:87 | no two hyphens remain side by side and every other character is kept in order |
| SOUAlgorithms.TokenSyllables | src/SOUAlgorithms.py:85-88 | every token gives at least one syllable |
| SOUAlgorithms.AtLeastOneSyllablePerToken | src/SOUAlgorithms.py:82-89 | there are at least as many syllables as tokens |
| SOUAlgorithms.TokenSyllablesJoin | src/SOUAlgorithms.py:85-88 | a token's syllables joined by '-' give its collapsed hyphenation |
| SOUAlgorithms.SyllablesAppend | src/SOUAlgorithms.py:84-88 | syllables of concatenated token lists concatenate |
| SOUAlgorithms.ValidTokens | src/SOUAlgorithms.py:139 | exactly the tokens matching the word pattern are counted |
| SOUAlgorithms.FRE | src/SOUAlgorithms.py:91-111 | the score is None iff there is no sentence or no word |
| SOUAlgorithms.FREExamples | src/SOUAlgorithms.py:110-111 | (10, 50, 100) scores 32.56 and (1, 1, 1) scores 121.22 |
| SOUAlgorithms.TokenStrings | src/SOUAlgorithms.py:139 | a token list is read item by item as strings |
| SOUAlgorithms.AppendExtra | src/SOUAlgorithms.py:128 | appending succeeds iff EXTRA is a list, and keeps its earlier items |
| SOUAlgorithms.LangFor | src/SOUAlgorithms.py:53-65 | the language used has a dictionary loaded or loadable, or is 'cs' |
| SOUAlgorithms.Scores | src/SOUAlgorithms.py:142-147 | five items, the URL first |
| SOUAlgorithms.NoPlainTextAppendsZeros | src/SOUAlgorithms.py:123-129 | without plain text exactly [URL, 0, 0, 0, None] is appended and nothing else changes |
| SOUAlgorithms.AppendsFiveItems | src/SOUAlgorithms.py:128-147 | a completed call appends five items to EXTRA; with tokens and sentences present earlier items and other fields are kept |
| SOUAlgorithms.CommaIsNoWord | src/SOUAlgorithms.py:139-147 | the plain text ',' scores [URL, 1, 0, 0, None] |
| SOUAlgorithms.FleschReadingEase.constructor | src/SOUAlgorithms.py:31-37 | only the Czech dictionary is loaded at first |
| SOUAlgorithms.FleschReadingEase.CheckLangDict | src/SOUAlgorithms.py:39-65 | the answer is LangFor and always has a dictionary; dictionaries are only added, at most the answer's |
| SOUAlgorithms.FleschReadingEase.TokensToSyllables | src/SOUAlgorithms.py:67-89 | the loop computes Syllables |
| SOUAlgorithms.FleschReadingEase.Process | src/SOUAlgorithms.py:113-152 | _process computes ProcessSpec and only adds dictionaries |
| WebPageTypeIdentification.SubstringHasPosition | src/WebPageTypeIdentification.py:65 | a substring occurs at some position |
| WebPageTypeIdentification.PositionIsSubstring | src/WebPageTypeIdentification.py:65 | a needle at any position is a substring |
| WebPageTypeIdentification.LongerNeverOccurs | src/WebPageTypeIdentification.py:65 | a needle longer than the URL never occurs |
| WebPageTypeIdentification.Classify | src/WebPageTypeIdentification.py:62-76 | the page type is one of the four labels |
| WebPageTypeIdentification.WritesOnlyPageType | src/WebPageTypeIdentification.py:62-82 | only the page type is written, one of the four labels; a raise leaves the record untouched |
| WebPageTypeIdentification.WebtypeIdsCoverClassify | src/WebPageTypeIdentification.py:93 | the ids are distinct and every label is the type of some URL |
| WebPageTypeIdentification.WebtypeIdsDistinct | src/WebPageTypeIdentification.py:93 | no two labels share an id |
| WebPageTypeIdentification.ClassifyWitness | src/WebPageTypeIdentification.py:62-76 | every label is reached by some URL |
| WebPageTypeIdentification.NewsExample | src/WebPageTypeIdentification.py:63-66 | a news domain is news |
| WebPageTypeIdentification.EshopExample | src/WebPageTypeIdentification.py:67-70 | 'eshop' alone is eshop |
| WebPageTypeIdentification.ForumExample | src/WebPageTypeIdentification.py:71-74 | 'forum' alone is forum, eshop strings having priority but not matching |
| WebPageTypeIdentification.OthersExample | src/WebPageTypeIdentification.py:75-76 | an empty URL is others |
| WebPageTypeIdentification.NoNewsIn | src/WebPageTypeIdentification.py:63-66 | no news string fits in seven characters |
| WebPageTypeIdentification.NoShopIn | src/WebPageTypeIdentification.py:67-70 | no eshop string fits in four characters or occurs in 'forum' |
| WebPageTypeIdentification.NoForumIn | src/WebPageTypeIdentification.py:71-74 | no forum string fits in four characters |
| WebPageTypeIdentification.WebPageTypeIdentifier.constructor | src/WebPageTypeIdentification.py:19-50 | the identifier holds the three configured string lists |
| WebPageTypeIdentification.WebPageTypeIdentifier.Scan | src/WebPageTypeIdentification.py:64-74 | a loop finds a match iff some needle occurs in the URL |
| WebPageTypeIdentification.WebPageTypeIdentifier.Process | src/WebPageTypeIdentification.py:52-82 | the three loops in order compute ProcessSpec |
| Common.Put | src/ArchiveProcessor.py:302-321 | dict assignment: an existing key keeps its place, a new key goes last, other keys keep their values, keys stay unique |
| Common.Somes | src/ArchiveProcessor.py:489 | filtering out None keeps exactly the present values |
| Common.SomesAppend | src/ArchiveProcessor.py:489 | filtering two lists in turn keeps the present values of each, in order |
| PyStr.SortedSet | src/ArchiveProcessor.py:316 | sorted(set(xs)) is strictly sorted with exactly the members of xs |
| PyStr.InsertSorted | src/ArchiveProcessor.py:315-316 | inserting keeps strict order and adds exactly the new member |
| PyStr.JoinSplitSep | src/ArchiveProcessor.py:875 | splitting on a separator and joining with it gives the string back |
| PyStr.Split | src/LanguageIdentification.py:42 | str.split gives non-empty words without whitespace |

## Left out

- Spark, HDFS and file input and output are left out. The model does not cover stream opening, glob expansion, `saveAsTextFile` or the text-file savers. Accumulators are local fields.
- WARC parsing with warcio is left out. A partition is a sequence of entries (WARC-Type, Content-Length, record, offset). The offset-after-content subtlety is not modelled, and an archive that fails to load is not modelled.
- `src/Record.py` is not part of this model. A record is a map from field names to values plus a revisit flag, and its content decoding is left out.
- Regular expressions for configured patterns (MIME groups, record filters) are function-typed parameters, and so is the JSON schema check. Fixed patterns are written out directly: the `urn:uuid:` prefix, the WARC-name shape, the `[\W_]` strip and the word-token filter.
- These libraries are function-typed parameters: BSON, JSON, lxml, jusText, `parse_header`, urllib's `urljoin` and `urlparse`, pyphen and the NLTK tokenizers. The same goes for `guess_charset` and `known_encoding` from `src/utils.py`.
- Utils.Base64ToBytes is modelled for canonical input only. `b64decode` discards characters outside the alphabet, and that is not modelled.
- PyStr.IsAlnum and PyStr.LowerChar approximate Unicode. They cover ASCII, Latin-1, Latin Extended-A/B and Cyrillic, and `\d` is ASCII digits.
- HBase.Client.CheckTable, HBase.Client.CheckTables and HBase.Client.DeleteTable never fail in the model. Only the table-level put and row read consult the failure oracle. The failure that `delete_table` would log is therefore not modelled.
- SOUAlgorithms.FRE computes the score on exact reals rather than floating point. Only its None condition is claimed to match the source exactly.
- SOUAlgorithms.FleschReadingEase.TokensToSyllables requires the language to have a dictionary loaded. `_process` only calls it after `check_lang_dict`.
- LanguageIdentification.Lines splits at `\n`, `\r` and the other line breaks one character at a time, so `\r\n` gives an extra blank line. Blank lines add nothing to a stoplist, so the stoplist is the same.
- LanguageIdentification.LanguageIdentifier.GuessLang takes the thresholds as parameters rather than Python default arguments.
- HBase.Client.constructor and HBase.Client.RestartConnection never fail. A `happybase.Connection` that cannot connect (src/HBase.py:37, 47-48) is not modelled.
- HBase.Client.Put therefore does not model a connection error raised by the restart in its retry handler (src/HBase.py:199-200). In the model a failed attempt only counts towards the retry limit.
- TextExtraction.PatternCharsets takes each meta-tag match as an already decoded string. The UnicodeDecodeError that decoding a non-UTF-8 match raises (src/TextExtraction.py:224) is not modelled.
- ArchiveProcessor.ArchiveProcessor.ProcessEntry takes the Content-Length as an int in the entry. The ValueError that `int()` raises on a malformed header (src/ArchiveProcessor.py:436) is not modelled.
- SOUAlgorithms.TokenStrings makes a TOKENS value that is a string fail the record. The source iterates such a string character by character (src/SOUAlgorithms.py:139), and that is not modelled.
- Logging is left out; the `logger` names are kept as fields.
- `PDFTextExtractor` (src/TextExtraction.py:237-240) is left out. Its `_process` returns the record unchanged, which BaseAlgorithms.ProcessContainsEarlyRaise covers.
- ArchiveProcessor.UpdatedInfo raises for any harvest id that is not a string. `sorted(set(...))` in the source (src/ArchiveProcessor.py:315-316) raises only for an unhashable id or when sorting compares mixed types, so a list of int ids sorts there but raises in the model.
- ArchiveProcessor.ArchiveProcessor.UpdateProcStatus inherits this: it treats a harvest id that is not a string as making the fold raise.
- ArchiveProcessor.ArchiveProcessor.DecomposeRecord models extra mode only for an EXTRA that is a list. Any other EXTRA raises.
- Algorithm instances keep no state across records. Each algorithm is a function from record to outcome, except the hyphenator cache of `FleschReadingEase`.
- The MIME cache is keyed by the model's values. Python's `1 == 1.0 == True` key equivalence is not modelled.
- The wrapping of a non-list chain in `_get_algseq_for_MIMEtype` is not modelled: configured chains are always lists.
- `terminate` / `sys.exit` is left out. `_init_alg_or_terminate` becomes a None table, and the other terminations are preconditions of the constructor (known groups, constructible algorithms).
- Timestamps and the command line are parameters: `t_started`, `now` and `cmd_args`.
- ArchiveProcessor.ArchiveProcessor.CheckStorageTables does not state which tables it creates. That is stated by HBase.Client.CheckTables, which it calls.
- `_load_onlyIDs` and `_load_JSON_schema` read files. The allow-list and the schema are given to the constructor.
- `run`, `process_data`, `save_data`, `_get_data_processor`, `_get_data_saver`, `setup_pySpark` and argparse wiring are left out.
- `process_hbase_table` and `_process_HBase_row` are left out. The first only raises NotImplementedError.
- From `src/HBase.py`, `get_rows_by_prefix`, `get_cell_versions`, `put_rows_from_json_file`, `close`, `get_tables`, `create_table` and `disable_table` are left out. The last three are folded into HBase.CheckedTables.
- `generate_webtypes_json` writes a file. Only its label-to-id map is modelled, as `WEBTYPE_IDS`.
- The tooling scripts, `src/Tokenization.py`, `src/SentimentAnalysis.py` and `src/TopicIdentification.py` are left out.
