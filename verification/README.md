# Kronroe, verified

A Dafny model of Kronroe's storage engine, a bi-temporal fact store: the append log and the bytes
it is written in, the state replayed from it with its indexes, the queries, writes, compaction and
crash recovery over that state, the time and identifier codecs, singleton enforcement and
idempotency over whole runs, and the lexical and vector search structures beside the store.

A *fact* is a subject, a predicate and an object, with a valid-time interval and a transaction
time. The store appends one *record* a line to a log; opening replays the log. In memory a primary
map of rows is kept with an id map, three set indexes, version chains ordered by `valid_from` and an
idempotency map.

## How the model is laid out

| files | what they hold |
|---|---|
| `Prelude`, `Decimals`, `Utf8` | options and results, splitting, byte order and ordered iteration, decimal numerals, UTF-8 |
| `Calendar`, `Rfc3339` | civil dates and day numbers, instants and their RFC 3339 text |
| `FactId`, `EntropyPool` | 128-bit identifiers, the generator, the pool of random bytes |
| `Json`, `JsonRoundTrip`, `JsonTexts`, `JsonIllFormed`, `JsonPrefix`, `JsonSplice` | printer and parser as functions of the remaining text, which texts it accepts, and what else holds of them |
| `JsonWriter`, `JsonParser` | the writer over a buffer and the parser over a position, as they run |
| `Facts`, `Records`, `RecordRoundTrip` | facts, the nine kinds of record, their codec |
| `LogFile`, `Recovery`, `ForeignLogs` | the log as bytes, loading, crashes, files of other versions |
| `LogState`, `AppendLogState`, `Queries` | what records mean, the state object with its indexes, reads against naive scans |
| `Coherence`, `Compaction`, `Database`, `Backend` | what every state keeps, compaction, the store as a state machine, the backend object |
| `Contradictions`, `PredicateRegistry`, `UncertaintyRegistry`, `Singletons` | contradictions, the stored registrations, singleton safety over runs |
| `Temporal`, `Idempotency` | invalidation and correction in time, idempotency under interleaving |
| `Vectors`, `VectorCoherence` | the vector index and its agreement with the store |
| `EditDistance`, `Tokens`, `Lexical`, `Recall` | fuzzy matching, tokens, BM25 search, paged recall |
| `TemporalGraph` | the graph object over all of them |

Text is a sequence of bytes, one `char` a byte; `Utf8.Valid` says which texts are Rust strings.
Numbers are their tokens. The disk is the bytes of the log, a crash keeps a prefix of them, and each
section that runs under the store's lock is one step. `KeysOf`, `IndexOf` and `Listing` define the
indexes and their iteration order from the rows alone, and the objects that update them in place are
proved to agree.

## What the code does that its documentation does not say

Each of these is a lemma below.

* Recovery ignores a torn last line but neither truncates it nor starts a new line after it, so the
  first write after such a recovery makes the file unreadable (`Recovery.AppendAfterRecovery`).
* A record with a non-finite float, or with an instant before the year 0, is written but makes the
  log fail to load (`RecordRoundTrip.RecordCodec`, `LogFile.LogLoads`), or is dropped without notice
  when a crash takes no more than its newline (`Recovery.CrashRecovery`).
* Civil arithmetic is done in 32 bits: a date in the year 11760000 is read as one in the year 778
  (`Rfc3339.FarYearMisread`; the wrapping arithmetic of a release build is modelled).
* Two pairs share their index text exactly when one reads as the other with a colon moved between
  the names (`Queries.PairTexts`); scans and point-in-time queries then mix their facts, under
  exact conditions (`Queries.ScanPair`, `Queries.ScanSubject`, `Queries.CurrentFactsAreOwn`,
  `Queries.FactsAtAreOwn`).
* So `detect_contradictions` can report facts of another pair for a predicate that is only written
  through rejecting checks (`Singletons.GuardedYetDetected`).
* Invalidating a fact that already ended can change the past (`Temporal.ReinvalidationIsExact`).
* A correction is two appends.  Between them the pair has no current fact
  (`Temporal.CorrectionExtends`), and two callers that correct one fact at once leave two facts in
  force (`Temporal.CorrectionsRace`).
* Overlap is reported for facts whose own interval is empty, and not for two open facts that begin
  at the last instant (`Contradictions.OverlapMeansSharing`, `Contradictions.LastInstantUnseen`).
* Paged recall stops early at a hit that is no longer valid (`Recall.PagingIsExact`,
  `Recall.StaleHitHidesOne`).

The parser also accepts raw control characters in strings and a `+` in place of the first
hexadecimal digit of a `\u` escape; with these it accepts exactly the JSON texts
(`JsonTexts.AcceptsExactly`). A `\u` escape whose four bytes end inside a multi-byte character
aborts; no log of the backend, however cut or written on after, does. A record of an unknown kind on
the first line passes the header check.

## Model

| member | source | states |
|---|---|---|
| Calendar.CalendarBijection | crates/core/src/kronroe_time.rs:417-430 | valid dates and day numbers correspond one to one, over all integers; every produced date is valid |
| Calendar.CivilWalksCalendar | crates/core/src/kronroe_time.rs:483-495 | the date of the next day number is the next date of the calendar, leap years included |
| Calendar.DaysMonotone | crates/core/src/kronroe_time.rs:472-481 | day numbers order valid dates by year, month and day, both directions |
| Calendar.DaysFromCivil32Exact | crates/core/src/kronroe_time.rs:472-481 | on every valid date of a 32-bit year the wrapping computation is exact exactly when the day number fits; but for the first 400 such years it is the day number reduced to 32 bits |
| Calendar.InstantDaysFit | crates/core/src/kronroe_time.rs:453-470 | over all 64-bit instants the intermediates fit in 32 bits |
| Rfc3339.ComponentsExact | crates/core/src/kronroe_time.rs:69-92 | over all 32-bit years, components give the instant they denote exactly when the day number and the instant fit |
| Rfc3339.FarYearMisread | crates/core/src/kronroe_time.rs:472-481 | beyond that a date is silently read as another |
| Rfc3339.ParseUndoesFormat | crates/core/src/kronroe_time.rs:275-386 | the text of an instant parses back to it exactly from the year 0 on; earlier texts are rejected |
| Rfc3339.OffsetShifts | crates/core/src/kronroe_time.rs:275-414 | the text of any instant from the year 0 on with its `Z` replaced by a sign, hours and minutes in digits: rejected when the hours exceed 23 or the minutes 59, else the instant that much earlier for `+` and later for `-`, held within 64 bits |
| Rfc3339.OffsetText | crates/core/src/kronroe_time.rs:388-414 | so `+hh:mm` and `-hh:mm` of two digits each shift any instant that stays in range by exactly their time |
| Rfc3339.ParseOfDigits | crates/core/src/kronroe_time.rs:275-386 | which texts of digits ending in `Z` are accepted: valid dates and times with at most six digits of fraction; and which instant they denote |
| Rfc3339.FormatRfc3339Z | crates/core/src/kronroe_time.rs:453-470 | the loop that pops trailing zeros prints the specified text |
| FactId.DecodeIsPosition | crates/core/src/fact_id.rs:239-247 | decoding a symbol is its position in the alphabet, whatever its case |
| FactId.EncodeBody | crates/core/src/fact_id.rs:225-237 | the digit loop writes the base-32 body of the 128-bit value |
| FactId.DecodeBody | crates/core/src/fact_id.rs:126-151 | the shifting loop computes the value of the body, or reports the overflow |
| FactId.FromParts | crates/core/src/fact_id.rs:109-124 | the byte array filled from time, sequence and entropy is that of the minted identifier |
| FactId.ParseUndoesText | crates/core/src/fact_id.rs:126-155 | parsing the text of any identifier gives it back |
| FactId.ParseAcceptsExactly | crates/core/src/fact_id.rs:126-151 | the accepted texts are exactly `kf_` and 26 digits whose value fits in 128 bits; case is canonicalised |
| FactId.TextOrderIsByteOrder | crates/core/src/fact_id.rs:225-237 | identifiers order alike as numbers, as bytes and as text |
| FactId.PartsRecovered | crates/core/src/fact_id.rs:161-172 | time and sequence are recovered for times below 2^48 |
| FactId.GeneratorState.NextParts | crates/core/src/fact_id.rs:59-84 | one draw: the new last pair, for any clock reading and any wait |
| FactId.StampsIncrease | crates/core/src/fact_id.rs:59-84 | over any run of clock readings the pairs strictly increase |
| FactId.StampsTellTime | crates/core/src/fact_id.rs:59-84 | a stamp is the clock's reading, sequence zero, whenever the clock has moved on; else the same instant with the next number, or a later one when the numbers are used up |
| FactId.MintedIdsIncrease | crates/core/src/fact_id.rs:94-124 | identifiers of one process are distinct and increase as numbers, bytes and text, whatever the entropy |
| EntropyPool.Pool.Fill | crates/core/src/fact_id.rs:278-293 | every caller gets the next bytes of the device, none skipped and none handed out twice |
| EntropyPool.BlockByte | crates/core/src/fact_id.rs:295-299 | where a byte of a refill stands in what the device gives |
| JsonRoundTrip.BodyParses | crates/core/src/json_read.rs:149-213 | `parse_string` undoes `write_string` on every byte string that is UTF-8 |
| JsonRoundTrip.PrintedParses | crates/core/src/json_read.rs:134-335 | parsing a printed document, with any text after it, gives its value and that text |
| JsonIllFormed.FailsFrom | crates/core/src/json_read.rs:134-147 | a document with a number that has no JSON form fails to parse where the first one stands, whatever stands there instead of a value |
| JsonIllFormed.IllFormedFails | crates/core/src/json_write.rs:27-49 | so it never parses, whatever follows it, and never aborts |
| JsonRoundTrip.PrintedLine | crates/core/src/json_write.rs:10-25 | printed documents hold no raw newline and are UTF-8 |
| JsonRoundTrip.DocumentParses | crates/core/src/json_read.rs:22-43 | a printed document parses as a whole |
| JsonTexts.AcceptsExactly | crates/core/src/json_read.rs:22-335 | for every text: it parses to a value exactly when it is UTF-8 and is that value written down, with any white space between tokens, any escapes and surrogate pairs in strings, any number token, and the last of several fields of one name |
| JsonTexts.TokenWritten | crates/core/src/json_read.rs:226-256 | an accepted number is a number token and what follows it |
| Utf8.ValidExactly | crates/core/src/json_read.rs:22-37 | the byte strings that are text are exactly the encodings of sequences of scalar values |
| Utf8.EncodingUnique | crates/core/src/json_read.rs:176-196 | and of one sequence each |
| JsonPrefix.AbortValue | crates/core/src/json_read.rs:215-224 | a text on which the parser aborts makes it abort in every longer text |
| JsonPrefix.NoPrefixParses | crates/core/src/json_read.rs:22-37 | no proper prefix of an object document is a document, nor does parsing it abort |
| JsonSplice.BrokenLineRejected | crates/core/src/json_read.rs:134-335 | part of a document, or all of it, followed straight by another record never parses, and never aborts |
| JsonParser.Parser.ParseString | crates/core/src/json_read.rs:149-213 | the loop that copies runs and decodes escapes does what the specification says of the remaining text |
| JsonParser.Parser.ParseCodePoint | crates/core/src/json_read.rs:176-196 | `\u` escapes and surrogate pairs over the moving position |
| JsonParser.Parser.ParseNumber | crates/core/src/json_read.rs:226-256 | the scanned token is the specified one |
| JsonParser.Parser.ParseObject | crates/core/src/json_read.rs:274-301 | the member loop parses the specified object, and stops |
| JsonParser.Parser.ParseArray | crates/core/src/json_read.rs:303-326 | the item loop parses the specified array, and stops |
| JsonParser.Parser.ParseValue | crates/core/src/json_read.rs:134-147 | the parser returns the specified value or error and leaves the specified rest, never past the end |
| JsonParser.ParseJson | crates/core/src/json_read.rs:22-37 | a whole document: UTF-8, one value, then only white space |
| JsonWriter.Writer.WriteString | crates/core/src/json_write.rs:10-25 | the byte loop appends the quoted, escaped string |
| JsonWriter.Writer.WriteValue | crates/core/src/temporal_graph.rs:133-163 | a value is appended as its document |
| JsonWriter.Writer.WriteFact | crates/core/src/temporal_graph.rs:317-351 | a fact is appended as its document of ten fields |
| JsonWriter.Writer.WriteRecord | crates/core/src/storage_append_log.rs:79-174 | a record is appended as its one-field document |
| RecordRoundTrip.FactReads | crates/core/src/temporal_graph.rs:354-420 | decoding a written fact gives it back, instants and optional fields included |
| RecordRoundTrip.RecordCodec | crates/core/src/storage_append_log.rs:179-371 | the line of any kind of record reads back to it exactly when its floats are finite and its instants lie in or after the year 0, and is an error, never an abort, otherwise |
| LogFile.RecordOnOneLine | crates/core/src/storage_append_log.rs:724-732 | the line of a record holds no newline |
| LogFile.LogLoads | crates/core/src/storage_append_log.rs:735-816 | a log the backend wrote loads to exactly its records when all are storable, and is refused, never aborting, otherwise |
| ForeignLogs.OlderFactReads | crates/core/src/temporal_graph.rs:354-420 | a fact whose later fields are absent reads as open, not expired, of confidence one, without a source, each field by itself |
| ForeignLogs.WholeNumbersRead | crates/core/src/json_read.rs:92-97 | a token without an exponent is read as a whole number exactly when the number it denotes is one and not negative |
| ForeignLogs.NewerKindSkipped | crates/core/src/storage_append_log.rs:363-369 | a record of a kind that is not known reads as nothing, whatever its body |
| ForeignLogs.SkippedLines | crates/core/src/storage_append_log.rs:739-768 | such a line, or a blank one, anywhere after the header makes no difference to what a log loads to |
| ForeignLogs.OtherProgramRefused | crates/core/src/storage_append_log.rs:786-803 | a file whose first record is not the header is refused as another program's |
| ForeignLogs.OtherVersionRefused | crates/core/src/storage_append_log.rs:805-809 | a file of another schema version is refused with the version that it has |
| Recovery.CrashRecovery | crates/core/src/storage_append_log.rs:724-816 | cut at or after the header, a log loads to exactly the records the cut leaves, one that lacks only its newline included, when the whole lines in the cut are storable, and is refused otherwise; it never aborts, whatever record is torn |
| Recovery.TornHeader | crates/core/src/storage_append_log.rs:769-785 | any log cut inside the header is refused, cut to nothing it is new |
| Recovery.AppendAfterRecovery | crates/core/src/storage_append_log.rs:703-715 | writing on after a crash and loading again gives the recovered records and the new ones when the cut ended with a newline and all these lines are storable, and is refused in every other case |
| LogState.ChainsAlwaysOrdered | crates/core/src/storage_append_log.rs:426-436 | after any records, each chain is a duplicate-free permutation of its prefix's keys ordered by `valid_from` |
| LogState.BegunSplits | crates/core/src/storage_append_log.rs:429-435 | on an ordered chain the partition point separates what has begun from what has not |
| LogState.PlaceOrdered | crates/core/src/storage_append_log.rs:426-436 | inserting at the partition point keeps the order |
| LogState.IndexEntries | crates/core/src/storage_append_log.rs:394-397 | an index has an entry exactly for prefixes with keys, and it is the set of those keys |
| AppendLogState.IndexAdded | crates/core/src/storage_append_log.rs:407-425 | entering a key yields the index of the table with the fact |
| AppendLogState.IndexDropped | crates/core/src/storage_append_log.rs:439-458 | removing a key, and the set when empty, yields the index of the table without it |
| AppendLogState.State.PartitionPoint | crates/core/src/storage_append_log.rs:1040-1046 | binary search finds the number of facts that have begun |
| AppendLogState.State.InsertFactIndex | crates/core/src/storage_append_log.rs:407-437 | the indexes become those of the table, the chain gets the key after its ties, and every look-up of a chain key succeeds |
| AppendLogState.State.RemoveFactIndex | crates/core/src/storage_append_log.rs:439-467 | the indexes become those of the table without the key |
| AppendLogState.State.ApplyFactUpsert | crates/core/src/storage_append_log.rs:469-476 | the state becomes what the upsert means, its indexes exact |
| AppendLogState.State.ApplyRecord | crates/core/src/storage_append_log.rs:485-528 | the state becomes what the record means, its indexes exact, for every kind of record |
| Queries.PairTexts | crates/core/src/storage_append_log.rs:403-405 | two pairs have one index text exactly when they are equal or one is the other with the colon read further right |
| Queries.PairInjective | crates/core/src/storage_append_log.rs:403-405 | so never on predicates without a colon |
| Queries.PairsCollide | crates/core/src/storage_append_log.rs:403-405 | two pairs that share a text |
| Queries.ScanPathsAgree | crates/core/src/storage_append_log.rs:962-989 | the indexed and the scanning path return the same rows exactly when no stored pair text properly extends the queried one |
| Queries.ScanPicks | crates/core/src/storage_append_log.rs:962-989 | for all names a scan returns the rows with the queried text if there are any, and else those whose text it begins |
| Queries.ScanPair | crates/core/src/storage_append_log.rs:962-989 | for all names a scan returns exactly the rows of the pair, in key order, exactly unless a stored fact is of another pair with the same text, or the pair has none and the text begins a stored one |
| Queries.ColonFreeUnmixed | crates/core/src/storage_append_log.rs:403-405 | which names without colons exclude |
| Queries.ColonMixesPairs | crates/core/src/storage_append_log.rs:962-989 | a table on which the scan of one pair returns the fact of another |
| Queries.ScanSubject | crates/core/src/temporal_graph.rs:716-719 | for all names `all_facts_about` returns exactly the rows of the subject, exactly unless a fact of another subject has a pair text that begins with the subject and a colon |
| Queries.CurrentFactsAreCurrent | crates/core/src/storage_append_log.rs:1003-1024 | for all names `current_facts` is the filter of all rows by pair text and current validity |
| Queries.CurrentFactsAreOwn | crates/core/src/storage_append_log.rs:1003-1024 | it is the filter by subject and predicate exactly when no other pair with that text has a current fact |
| Queries.FactsAtIsNaive | crates/core/src/storage_append_log.rs:1026-1062 | for all names `facts_at` returns each fact with the pair's text valid at the instant, once, latest beginning first, and nothing else |
| Queries.FactsAtAreOwn | crates/core/src/storage_append_log.rs:1026-1062 | these are the facts of the pair exactly when no fact of another pair with that text was valid then |
| Coherence.ApplyCoherent | crates/core/src/storage_append_log.rs:469-528 | an admissible record keeps rows and ids naming each other, embeddings of one dimension, idempotency entries of stored facts |
| Compaction.ChainsDifferInTies | crates/core/src/storage_append_log.rs:426-436 | two chains of a prefix hold the same keys, with the same `valid_from` at each place |
| Compaction.ReplayRows | crates/core/src/storage_append_log.rs:1357-1375 | replaying the row records adds exactly those rows, ids and embeddings |
| Compaction.ReplayIdempotency | crates/core/src/storage_append_log.rs:1377-1393 | the idempotency records never fail, change no row and restore the map |
| Compaction.CompactionPreserves | crates/core/src/storage_append_log.rs:1328-1396 | in a coherent state compaction never errors and replays to the state, chains equal up to ties |
| Compaction.CompactedLoads | crates/core/src/storage_append_log.rs:864-882 | the file it writes recreates the state, and loads exactly when the state is storable |
| Compaction.CompactionCrash | crates/core/src/storage_append_log.rs:841-861 | at every point of write, sync and rename the file in place is the old or the new one; which of them load, exactly, and that both do when the old log was storable |
| Database.NextGood | crates/core/src/storage_append_log.rs:818-882 | every possible step keeps the invariant of the store |
| Database.EveryRun | crates/core/src/storage_append_log.rs:656-1222 | after any run with crashes and compactions the memory is coherent and indexed, the log replays to it up to ties, compaction would succeed, and the file loads when all of it is storable and is refused otherwise |
| Database.CrashAnywhere | crates/core/src/storage_append_log.rs:735-816 | a crash at any byte after the header leaves a file that opens to a store with the whole invariant when its whole lines are storable, and is refused otherwise |
| Database.CompactionAnywhere | crates/core/src/storage_append_log.rs:841-882 | after any run whose log is storable a compaction may stop anywhere: the file in place loads to the state |
| Database.OpenedIsLoaded | crates/core/src/storage_append_log.rs:661-676 | reopening a sound log is loading its bytes and replaying what they load to |
| Database.StepsReopen | crates/core/src/storage_append_log.rs:661-676 | so a step that reopens the store, or what a crash between lines left of it, loads the bytes of the file |
| Database.FoundById | crates/core/src/storage_append_log.rs:991-1001 | look-up by id finds the stored fact of that id, under its own key, exactly when there is one |
| Backend.LoadState | crates/core/src/storage_append_log.rs:735-816 | the load loop builds the replay of the records the bytes load to, or fails as specified |
| Backend.Store.InitializeSchema | crates/core/src/storage_append_log.rs:818-838 | writes what is missing of header and version |
| Backend.Store.ScanFacts | crates/core/src/storage_append_log.rs:962-989 | returns the specified rows by either path |
| Backend.Store.CurrentFacts | crates/core/src/storage_append_log.rs:1003-1024 | returns the scan of the current keys of the pair |
| Backend.Store.FactsAt | crates/core/src/storage_append_log.rs:1026-1062 | binary search and backward walk give the filter of the whole chain, scanning only what has begun |
| Backend.Store.Compact | crates/core/src/storage_append_log.rs:841-882 | the file becomes the lines that recreate the state, or is left alone |
| Backend.Store.RecordsToKeep | crates/core/src/storage_append_log.rs:1328-1396 | the loops over the maps collect the specified records |
| Backend.Store.WriteFactAndIdempotency | crates/core/src/storage_append_log.rs:1101-1124 | a known key writes nothing; either way the returned id is the one recorded |
| Backend.Store.WriteFactWithEmbedding | crates/core/src/storage_append_log.rs:1127-1153 | refuses an empty or differently sized embedding, writes otherwise |
| Backend.Store.WriteFactChecked | crates/core/src/storage_append_log.rs:1174-1221 | check and write in one section: only when asked to reject does a contradiction stop the write, and then nothing changes; otherwise the log gains the record of the fact and the rows the fact, and no other row changes |
| Contradictions.OverlapMeansSharing | crates/core/src/contradiction.rs:174-202 | overlapping facts share an instant exactly when neither interval is empty; facts that do not overlap share one exactly when both are open and one begins at the last instant |
| Contradictions.LastInstantUnseen | crates/core/src/contradiction.rs:185-201 | two open facts that begin at the last instant hold then and are never found to conflict |
| Contradictions.WindowIsIntersection | crates/core/src/contradiction.rs:190-198 | the overlap window holds exactly the shared instants, exactly unless it takes in the last instant and a fact ends there |
| Contradictions.NumberOfDigits | crates/core/src/contradiction.rs:208-220 | the number that a token of digits, with or without a fraction, denotes |
| Contradictions.NumberScaled | crates/core/src/contradiction.rs:208-220 | and with an exponent of either sign |
| Contradictions.ConflictIsDifference | crates/core/src/contradiction.rs:208-220 | values conflict exactly when they differ, two finite numbers when they are more than 2^-52 apart, others when neither is NaN and they differ |
| Contradictions.SeverityLevels | crates/core/src/contradiction.rs:224-257 | high exactly when one valid time contains the other, else medium from 31 days of overlap on, else low |
| Contradictions.ConflictMeans | crates/core/src/contradiction.rs:296-329 | two facts conflict exactly when they are of one pair with conflicting values, unexpired, and share an instant; what is reported names them in order, with their window and severity |
| Contradictions.DetectSymmetric | crates/core/src/contradiction.rs:296-329 | detection, window and severity do not depend on the order of the pair |
| Contradictions.AllPairsEmpty | crates/core/src/temporal_graph.rs:917-925 | the nested loops find nothing exactly when no two facts conflict |
| Contradictions.AllPairsExact | crates/core/src/temporal_graph.rs:917-925 | they report each conflicting pair once, with its contradiction, by the first fact and then the second |
| Contradictions.AgainstExact | crates/core/src/contradiction.rs:374-383 | a check reports one contradiction with each fact that conflicts, in their order |
| Contradictions.DetectAmong | crates/core/src/temporal_graph.rs:917-925 | the nested loops list the contradictions of all pairs in order |
| PredicateRegistry.RegistryRoundTrip | crates/core/src/contradiction.rs:89-125 | a stored registration reads back |
| PredicateRegistry.LoadDetector | crates/core/src/temporal_graph.rs:494-509 | the rebuilt detector holds exactly the stored registrations, or one cannot be read |
| UncertaintyRegistry.VolatilityRoundTrip | crates/core/src/uncertainty.rs:84-119 | a stored volatility reads back |
| UncertaintyRegistry.WeightRoundTrip | crates/core/src/uncertainty.rs:121-134 | a stored source weight in range reads back |
| UncertaintyRegistry.ReadNumbers | crates/core/src/uncertainty.rs:84-134 | of any stored number: a half-life only when it is positive, else stability; a weight the nearest in range |
| UncertaintyRegistry.WordReads | crates/core/src/uncertainty.rs:93-119 | a stored word is stability exactly when it spells infinity, in full or short, in any case |
| UncertaintyRegistry.LoadEngine | crates/core/src/temporal_graph.rs:508-533 | the rebuilt engine holds exactly the stored volatilities and weights, or one cannot be read |
| Singletons.IndexedCheckIsComplete | crates/core/src/storage_append_log.rs:1186-1206 | for all names, the indexed check returns the contradictions that comparing with every stored fact would |
| Singletons.NothingFound | crates/core/src/contradiction.rs:374-383 | it returns none exactly when no stored fact conflicts |
| Singletons.CheckFinds | crates/core/src/storage_append_log.rs:1186-1206 | it reports one contradiction with each stored fact that conflicts, none twice, in the order of their keys |
| Singletons.DetectedExactly | crates/core/src/temporal_graph.rs:897-926 | for all names something is detected exactly when two facts that the scan picks conflict |
| Singletons.DetectedIsOther | crates/core/src/temporal_graph.rs:897-926 | for a consistent predicate, exactly when facts of another predicate that the scan picks do |
| Singletons.NothingDetected | crates/core/src/temporal_graph.rs:897-926 | when every predicate is consistent nothing is detected, for all names |
| Singletons.SingletonSafety | crates/core/src/temporal_graph.rs:1000-1039 | over any run with crashes, reopening and compaction, a predicate written only through rejecting checks never holds a contradiction; for all names something is detected exactly when other facts that the scan picks conflict |
| Singletons.FullyGuardedSafety | crates/core/src/temporal_graph.rs:897-926 | over any run where every predicate is, nothing is ever detected, for all names |
| Singletons.GuardedYetDetected | crates/core/src/temporal_graph.rs:897-926 | a run that guards a predicate and yet detects a contradiction for it, between facts of another pair |
| Temporal.InvalidatedInterval | crates/core/src/temporal_graph.rs:791-808 | an invalidated fact answers exactly from its beginning to the invalidation, and other facts are untouched |
| Temporal.InvalidationKeepsThePast | crates/core/src/temporal_graph.rs:791-808 | invalidating a current fact changes no earlier answer and removes only that fact from later ones |
| Temporal.InvalidationStores | crates/core/src/temporal_graph.rs:791-808 | the row of a known id keeps all but its ends, which are both the instant; one record is appended and no other row changes |
| Temporal.ReinvalidationIsExact | crates/core/src/temporal_graph.rs:791-808 | for any fact, earlier answers stay the same exactly when it ran to the instant or began no earlier |
| Temporal.CorrectionsPartitionTime | crates/core/src/temporal_graph.rs:298-302 | in a correction history exactly one fact answers at each instant, the last that had begun; none does before the first, or from an unfinished correction on |
| Temporal.CorrectionStores | crates/core/src/temporal_graph.rs:825-835 | after a correction with a new id: the old row ended at the instant, a new row of the old subject and predicate with the new value from the instant on, open, of confidence one, no source; that row answers at every later instant and is current |
| Temporal.CorrectionExtends | crates/core/src/temporal_graph.rs:825-835 | the store at the three points of a correction: the history, the history ended at the instant, the history with the replacement; also when an earlier correction was left unfinished |
| Temporal.CorrectionChain | crates/core/src/temporal_graph.rs:791-835 | after any interleaving of the two steps of corrections, finished or not, with other steps, `facts_at` returns exactly the fact in force and `current_facts` the last or none, exactly unless a fact of another pair with that text is valid too |
| Temporal.CorrectionsRace | crates/core/src/temporal_graph.rs:825-835 | two callers that both end the fact before either writes leave two facts in force |
| Idempotency.NextExtends | crates/core/src/storage_append_log.rs:1101-1124 | no step but losing part of the log changes what a key stands for |
| Idempotency.OneRecordPerKey | crates/core/src/storage_append_log.rs:1377-1393 | after any run a recorded key is carried by exactly one record of the log, others by none |
| Idempotency.OneIdPerKey | crates/core/src/temporal_graph.rs:668-683 | for any interleaving of any number of callers, all callers of a key are told the one id it stands for |
| Vectors.RankingIsTop | crates/core/src/vector.rs:109-139 | filter, stable sort and truncation give the top `k` of the allowed entries, none left out scoring above one kept |
| Vectors.SortedStable | crates/core/src/vector.rs:133-138 | rows of one score keep the order of their entries |
| Vectors.VectorIndex.Insert | crates/core/src/vector.rs:54-77 | inserts or replaces, or refuses an empty or differently sized embedding |
| Vectors.VectorIndex.Remove | crates/core/src/vector.rs:92-96 | swap-remove drops exactly that id |
| Vectors.VectorIndex.Search | crates/core/src/vector.rs:109-139 | returns the top `k`, or nothing for a zero query |
| VectorCoherence.RebuiltMirrors | crates/core/src/temporal_graph.rs:551-558 | rebuilding from a coherent store succeeds and mirrors its embeddings |
| VectorCoherence.InsertNeverFails | crates/core/src/temporal_graph.rs:1082-1090 | the index accepts exactly what the store accepts, so the insert after a durable write never fails |
| VectorCoherence.CacheCoherence | crates/core/src/temporal_graph.rs:1066-1093 | after any run the index holds exactly the stored embeddings, of one dimension, and a rebuild gives the same |
| EditDistance.IsEditDistanceLeOne | crates/core/src/lexical.rs:194-252 | true exactly for words equal or one substitution, adjacent transposition, insertion or deletion apart |
| EditDistance.NearSymmetric | crates/core/src/lexical.rs:194-252 | that relation is symmetric |
| EditDistance.WalkWithSkip | crates/core/src/lexical.rs:234-251 | the greedy walk with one skip finds an insertion exactly when there is one |
| Tokens.Tokenize | crates/core/src/lexical.rs:175-192 | the tokens are the lower-cased non-empty alphanumeric runs, in order |
| Tokens.TokensSpell | crates/core/src/lexical.rs:175-192 | the tokens put together are the alphanumeric characters of the text in order, each lower-cased |
| Tokens.RunsAlphanumeric | crates/core/src/lexical.rs:175-192 | runs are alphanumeric, the separators between them are not, and put together in order they are the text |
| Tokens.RunsUnique | crates/core/src/lexical.rs:175-192 | a text divides so in no other way |
| Lexical.PostingsExact | crates/core/src/lexical.rs:43-61 | postings name exactly the documents with the term, each once, with its count |
| Lexical.CountIsPlaces | crates/core/src/lexical.rs:43-61 | the count of a term is the number of places where it stands |
| Lexical.AverageIsMean | crates/core/src/lexical.rs:58-72 | the average length is that of all tokens of the documents, and one without documents |
| Lexical.LexicalIndex.Build | crates/core/src/lexical.rs:36-81 | for any map order, postings, frequencies, vocabulary and average length are those of the documents |
| Lexical.ScoreSign | crates/core/src/lexical.rs:111-129 | a document scores above zero exactly when it has a query term |
| Lexical.OneTermScore | crates/core/src/lexical.rs:111-129 | the score for one term is `idf * 2.2 * n / (n + w)`, for `n` occurrences, `idf` the logarithm of how rare the term is and `w` growing with the length against the average |
| Lexical.ScoresAdd | crates/core/src/lexical.rs:111-129 | the score for two queries together is the sum of theirs |
| Lexical.MoreOccurrencesFirst | crates/core/src/lexical.rs:106-144 | in what a search returns: of documents of one length, the one with more occurrences of the term comes first |
| Lexical.ShorterFirst | crates/core/src/lexical.rs:106-144 | with as many occurrences, the shorter document comes first |
| Lexical.RarerFirst | crates/core/src/lexical.rs:106-144 | of two terms with as many occurrences in documents of one length, the document of the rarer one comes first |
| Lexical.EvenByIdFirst | crates/core/src/lexical.rs:137-142 | with as many occurrences in as many tokens, the smaller id comes first |
| Lexical.RankingUnique | crates/core/src/lexical.rs:137-142 | there is one order of a set of hits, so map order does not matter |
| Lexical.SearchTermsExact | crates/core/src/lexical.rs:106-144 | the first `limit` of the documents with a query term, by score and then id |
| Lexical.SearchIsPrefix | crates/core/src/lexical.rs:83-104 | a search for fewer rows is the beginning of a search for more |
| Lexical.AnswerRows | crates/core/src/lexical.rs:83-104 | its rows are documents, each at most once |
| Lexical.AnswerFinds | crates/core/src/lexical.rs:83-104 | which documents a search finds: those with a query term if there are any, else those with a term one edit away, and all of them when they are fewer than the limit |
| Lexical.FuzzyTermsExact | crates/core/src/lexical.rs:146-161 | the fuzzy terms are the vocabulary terms one edit from a query term, each once |
| Lexical.LexicalIndex.SearchTerms | crates/core/src/lexical.rs:106-144 | the accumulating loops compute the ranking of `SearchTermsExact`, by the scores of `OneTermScore` and `ScoresAdd` |
| Lexical.LexicalIndex.Search | crates/core/src/lexical.rs:83-104 | the search returns that ranking, of the near terms only when nothing has a query term |
| Recall.FetchIsWindow | crates/core/src/temporal_graph.rs:736-782 | a search for `n` rows with its facts, less those no longer valid, is the window of `n` rows of one ranking |
| Recall.Fetch | crates/agent-memory/src/agent_memory.rs:1125-1143 | building the index, searching it and dropping stale facts gives that window |
| Recall.RecallConfident | crates/agent-memory/src/agent_memory.rs:1326-1443 | the loop over such fetches, with its seen set, returns what the paging specification gives for the ranking, and stops |
| Recall.OneShotPicks | crates/agent-memory/src/agent_memory.rs:1376-1443 | what paging is meant to return: the first `limit` hits within the budget that are current and at least as confident as asked, in rank order, none skipped |
| Recall.WindowsDouble | crates/agent-memory/src/agent_memory.rs:1376-1437 | the windows fetched: the limit first, then double, the whole budget after two in a row that add no confident row |
| Recall.PagingStops | crates/agent-memory/src/agent_memory.rs:1376-1437 | paging stops at the first of these that holds enough confident rows, covers a hit no longer valid, reaches the budget or passes the end of the ranking |
| Recall.PagingIsOneShot | crates/agent-memory/src/agent_memory.rs:1376-1443 | when every hit within the budget is current: the first `limit` confident rows of the first `max_scored_rows`, in rank order |
| Recall.PagingIsExact | crates/agent-memory/src/agent_memory.rs:1376-1443 | paging equals its one-shot meaning exactly unless a hit within the budget is no longer valid, the first window that covers one has too few confident rows, and a confident current row lies beyond that window |
| Recall.StaleHitHidesTheRest | crates/agent-memory/src/agent_memory.rs:1417-1425 | a stale best hit makes a search for one row return none, rightly only when no row within the budget is current and confident |
| Recall.StaleHitHidesOne | crates/agent-memory/src/agent_memory.rs:1417-1425 | a ranking of two on which it returns none where one row was asked for and is there |
| TemporalGraph.BuildFact | crates/core/src/temporal_graph.rs:559-581 | a built fact has the given subject, predicate, object, beginning and source, was recorded now, has no ends, and is of the given confidence or the nearer bound of 0 and 1; there is none for a confidence that is not finite |
| TemporalGraph.AssertionAnswers | crates/core/src/temporal_graph.rs:594-606 | after an assertion with a new id, `facts_at` contains its value under its id exactly from its beginning on |
| TemporalGraph.Graph.AssertFact | crates/core/src/temporal_graph.rs:594-606 | the log gains one record and the rows one row, of what was asserted, of confidence one; it answers exactly from its beginning on |
| TemporalGraph.Graph.AssertFactWithSource | crates/core/src/temporal_graph.rs:613-660 | the same with a confidence and a source; a confidence that is not finite changes nothing |
| TemporalGraph.Graph.RegisterSingletonPredicate | crates/core/src/temporal_graph.rs:852-868 | the registration is written, stored in place of an earlier one, and held; no other changes |
| TemporalGraph.Graph.AssertFactIdempotent | crates/core/src/temporal_graph.rs:668-683 | a key that is new stores the fact under its own id, which is returned; one that is known changes nothing, and the id it stands for is returned |
| TemporalGraph.Graph.InvalidateFact | crates/core/src/temporal_graph.rs:791-808 | a known id is ended at the instant, all else kept; an unknown one or no id at all changes nothing |
| TemporalGraph.Graph.CorrectFact | crates/core/src/temporal_graph.rs:825-835 | the store is that of the invalidation followed by the assertion, and the new value answers from the instant on and is current; an unknown id or no id at all changes nothing |
| TemporalGraph.Graph.AssertFactChecked | crates/core/src/temporal_graph.rs:1000-1039 | without an error exactly the fact is added, warnings or not; with an error nothing changes; and there is one exactly when the predicate is a singleton whose policy rejects and a stored fact conflicts |
| TemporalGraph.Graph.AssertFactWithEmbedding | crates/core/src/temporal_graph.rs:1066-1093 | fact, embedding and index change together, exactly by what was given, or nothing does |
| TemporalGraph.Graph.DetectContradictions | crates/core/src/temporal_graph.rs:897-926 | all contradictions among the unexpired rows of the scan |
| TemporalGraph.RebuildVectorIndex | crates/core/src/temporal_graph.rs:551-558 | the loop builds the specified index |
| TemporalGraph.Init | crates/core/src/temporal_graph.rs:482-544 | opening succeeds exactly when every stored registration of a predicate, a volatility and a source weight can be read |

## Left out

- File system calls, `fsync` errors, locks and path handling: foreign calls. A write either appends its whole line or a crash cuts it; no other I/O error is modelled.
- Recovery.AppendAfterRecovery: states when writing on after a torn line works; the runs of `Database` therefore crash between lines, and `Database.CrashAnywhere` covers every other byte.
- IEEE formatting, parsing and rounding of floats: numbers are their tokens, read back as written. Tokens with an exponent are not read as whole numbers by `as_u64`, and a token too large for a double stays a token.
- Contradictions.NumbersDiffer: compares the numbers the tokens denote, as reals, before rounding.
- Confidence differences and suggested resolutions of a contradiction: float heuristics.
- Logarithm and cosine: any function positive above one, and increasing there where rarity is compared; any score. Scores are reals, so ties that rounding to `f32` creates are not modelled.
- Temporal.CorrectionChain: its runs lose no record and let a correction finish only if no other began since; `Temporal.CorrectionsRace` shows why.
- Recall.RecallConfident: takes the facts not to change between the fetches of one call, and only the text path; ranks with the score of `Lexical`.
- The freshness of identifiers across processes rests on entropy; runs take new facts to have new ids.
- Time text is parsed by functions on the text where the program steps an iterator.
- Unicode classification and lower-casing: any functions.
- `detect_all_contradictions`, hybrid search, uncertainty decay beyond its registrations, alias documents, `what_changed` and the other reports: presentation, heuristics or forwarding.
- The hybrid path of recall: one fetch and a filter.
- Observers, bindings, the MCP server and the web site: plumbing.
