# Verified models of the data platform's copy-and-reconcile code

Most of the platform is glue, but in several places a fast, partial or remote copy of some data must agree with
the simple thing it stands for: a Kafka topic with a source table, a cache with what was put in it, a graph with
the table it was loaded from, a translated query with the original, a resolved snapshot with its manifests, two
serialisers with one type. This project models those places in Dafny and proves that they agree, or states
exactly when they do.

One module models one component. `Prelude` holds definitions that several of them share.

- `KeyCodec`, `LineText`, `TopicScan`, `Reconciliation`, `TargetedScan`: compare and fix of the lakehouse UI. A
  partition is the sequence of its messages, each reduced to what a reader makes of it: an optional primary key and
  an operation. `LineText` is the printed line that a reader cuts into key and value, `TopicScan` the full scan,
  `TargetedScan` the concurrent search that stops early, `Reconciliation` the diff and the messages that a fix
  appends.
- `CsvLine`, `LineStream`, `PullQuery`: the parser, the line stream and the batched lookup that feed compare.
- `TtlLruCache`, `TwoTierCache`: the catalog's local cache, and the same behind it with a Redis shared by any
  number of replicas and failing at any call. Time is a real number.
- `IncrementalLoader`: the node loaders of the graph, with runs cut between batches and updates in between.
- `GraphScope`, `InlineProps`, `CypherTranslation`: the SQL-to-graph pipeline with its cache, and the Cypher
  translator with its parser of inline properties. Every node has a row in the nodes table, and a customer one more
  in the customers table (`manifests/duckdb/README.md:56-58`).
- `LiveFiles`, `PositionDeletes`: the two notebooks that resolve a table snapshot.
- `ColumnTree`: nested column trees and their Thrift and protobuf serialisers.

A method follows the loop or the object it models and is proved against a specification function; the lemmas
then say what that function means. `dafny verify dfyconfig.toml` checks everything.

## What turned out not to hold

Each of these has a lemma with the failing family or the exact condition.

- The comment at `docker/lakehouse-ui/server.js:2368` says the targeted reader keeps the latest entry of a key; it
  keeps the first one met, in the first batch of partitions that has the key
  (`TargetedScan.TargetedAgreesWithFullScan`, `TargetedScan.KeepsFirstNotLatest`). Compare and the fix's pre-check
  inherit this (`TargetedScan.TargetedCompareExact`, `TargetedScan.PreCheckBlocksDeletedRows`). Which schedules
  there are depends on the concurrency: compare reads one partition at a time unless told otherwise
  (`docker/lakehouse-ui/server.js:2948`), the pre-check all at once (`TargetedScan.ConcurrencyMatters`).
- The full scan cuts a printed line at the first backslash followed by t, the targeted reader at a TAB
  (`docker/lakehouse-ui/server.js:2281-2289`, `docker/lakehouse-ui/server.js:2407`). The JSON text of a key with a
  TAB, or with a backslash before a t as in `C:\temp`, holds that pair itself, so the full scan drops the message
  (`LineText.FullSplitExact`), and the targeted reader does not (`LineText.TargetedSplitExact`). A row with such a
  key stays missing for the full scan whatever the fix writes (`Reconciliation.AwkwardKeyStaysMissing`), and the two
  readers disagree on it even if it occurs once (`TargetedScan.SingleOccurrenceAgrees`,
  `TargetedScan.CutKeyIsSeenByOne`).
- A fix converges only if the keys that it writes can be read back (`Reconciliation.FixConverges`): a zero-padded
  number comes back as another key, so once its row is fetched the row stays missing and a stray key appears
  (`Reconciliation.PaddedKeyGoesAstray`). The SELECT of the fix leaves numeric-looking text bare
  (`docker/lakehouse-ui/server.js:3755-3768`): PostgreSQL refuses to compare a text column with it, so there the fix
  ends with an error, and it is Oracle's implicit conversion that lets the stray key be written.
- A fix writes a ghost's key as text where the original was a number, so the producer may send the delete to
  another partition; a full scan then lets a later partition win (`Reconciliation.FixConverges`,
  `Reconciliation.GhostInLaterPartitionStays`).
- The reader renames a key column `id` to `_id` for every source, not only for MongoDB, so a relational table
  keyed by `id` is never reconciled (`KeyCodec.FixKeyRoundTrip`, `Reconciliation.IdTablesNeverConverge`).
- An invalidation without effect on Redis lets an older value come back exactly when Redis still holds one that
  has not run out (`TwoTierCache.LostInvalidationServesOldValue`).
- An update that is not stamped later than the watermark breaks the loader's promise, and no incremental run ever
  loads it (`IncrementalLoader.TiedUpdateIsLost`, `IncrementalLoader.LateUpdateIsNeverLoaded`).
- The comment at `docker/duckdb/stargraph_sql_proxy.py:624-625` says a time to live of 0 force-clears a scope; it
  makes loads pile up instead (`GraphScope.SwitchedOffPilesUp`, `GraphScope.OneLoadIffCacheOn`).
- The translator splices the WHERE text in without parentheses, strips dotted words out of its literals, and cuts
  inline properties at every comma, also inside a literal (`docker/duckdb/stargraph_sql_proxy.py:817-825`): of
  `{node_id: 'a,b'}` it keeps `a` (`InlineProps.InlineRoundTrip`, `InlineProps.ReadCut`,
  `CypherTranslation.PreservesIff`). Against the tables of `manifests/duckdb/duckdb_iceberg_setup.sql`, an inline
  property of a node other than a customer names a column that the nodes table does not have, since it keeps
  properties in one JSON column, and no relationship pattern with a customer at an end can be answered, since the
  customers table has no `node_id` (`CypherTranslation.PreservesIff`, `CypherTranslation.RelPatternPreservesIff`).
  The join looks at neither the deletion flag of the relationship nor the label of the node that it joins, which may
  be a customer with the same id (`CypherTranslation.DeletedEdgeIsReturned`,
  `CypherTranslation.RelPreservesIffFaithful`).
- The LIMIT that the query reader looks for may stand inside a key, and then rows are lost
  (`PullQuery.PullIsExactIffUncut`, `PullQuery.LimitInKeyLosesRow`).
- A status outside the numbering makes the live files depend on the order of the rows, for exactly the paths that
  also come as existing and neither as added nor as deleted (`LiveFiles.OrderAndRepetitionIrrelevant`).
- Both serialisers fail on a struct without fields, and differ on nested names with the shadow prefix
  (`ColumnTree.SerialisersDescribeType`, `ColumnTree.SerialisersAgree`).

## Model

| member | source | states |
|---|---|---|
| `KeyCodec.PrintedIsCanonical` | docker/lakehouse-ui/server.js:3955-3963 | parsing a decimal text and printing the number gives the text back if and only if it is canonical: no leading zero, no minus zero |
| `KeyCodec.IntegerTexts` | docker/lakehouse-ui/server.js:3959-3959 | a text is cast to an integer if and only if it is digits behind a minus or none |
| `KeyCodec.FractionTexts` | docker/lakehouse-ui/server.js:3961-3961 | and to a fraction if and only if it is digits, a dot and digits behind a minus or none |
| `KeyCodec.ComponentRoundTrip` | docker/lakehouse-ui/server.js:2206-2232 | a key component cast into JSON and normalised on reading is the same text if and only if it survives: canonical within plus or minus 2^53 - 1, a fraction or long number that prints as it was, or other non-empty text that does not spell out some other ObjectId |
| `KeyCodec.WrapperIsUnwrapped` | docker/lakehouse-ui/server.js:2210-2231 | a value inside the value wrapper of Debezium reads as the value does, null as no value, and an object that is no ObjectId as the text that JavaScript gives any object |
| `KeyCodec.TrimMeans` | docker/lakehouse-ui/server.js:2217-2218 | trimming takes spaces off both ends and nothing else |
| `KeyCodec.UsualKeysSurvive` | docker/lakehouse-ui/server.js:2210-2232 | canonical integers in the safe range, and texts that neither look numeric nor start with a brace, always read back unchanged |
| `KeyCodec.PaddedNumberIsLost` | docker/lakehouse-ui/server.js:3955-3963 | no zero-padded number in the safe range reads back unchanged |
| `KeyCodec.FixKeyRoundTrip` | docker/lakehouse-ui/server.js:3953-3976 | once its line is cut into key and value, a row written by the fix is read back under its own key, from the message key or its after image, if and only if every component survives and its id column is not renamed away; `LineText.FullSplitExact` says when the line is cut so |
| `KeyCodec.KeyBeforeRow` | docker/lakehouse-ui/server.js:2412-2436 | the message key decides where it can be read, the row in the value where it cannot |
| `KeyCodec.ObjectIdRoundTrip` | docker/lakehouse-ui/server.js:2237-2246 | an ObjectId reads back as its hex from Debezium's key, from the fix's key and from an extended-JSON object |
| `LineText.KeyPair` | docker/lakehouse-ui/server.js:2281-2289 | the JSON text of a key holds a backslash followed by t if and only if a column name or a text component has a TAB or itself a backslash before a t |
| `LineText.EscapeRoundTrip` | docker/lakehouse-ui/server.js:3971-3971 | every text comes back from its JSON string when that is read by section 7 of RFC 8259 |
| `LineText.KeyTextMeans` | docker/lakehouse-ui/server.js:3971-3971 | a key is written as its fields in column order between braces, each a quoted name, a colon and the value |
| `LineText.FullSplitExact` | docker/lakehouse-ui/server.js:2276-2289 | the full scan gets key and value of a printed line apart if and only if the key has none of these |
| `LineText.TargetedSplitExact` | docker/lakehouse-ui/server.js:2406-2409 | the targeted reader gets every key and value apart |
| `TopicScan.ScanPartition` | docker/lakehouse-ui/server.js:2248-2352 | draining one partition between its offset bounds yields last-write-wins over exactly the messages in the window |
| `TopicScan.ScanTopic` | docker/lakehouse-ui/server.js:2692-2763 | the batched scan is the in-order merge over the partitions with a non-empty window, whatever the concurrency setting |
| `TopicScan.ScannedKeys` | docker/lakehouse-ui/server.js:2655-2752 | a windowed scan has exactly the keys of the messages from the tail clamp or else the lower bound by time up to the upper bound or else the end, in the partitions whose bounds by time leave something |
| `TopicScan.LastWritesCompact` | docker/lakehouse-ui/server.js:2262-2346 | the map of a partition has exactly the keys that occur in it, each with the operation of its highest offset |
| `TopicScan.SplitScan` | docker/lakehouse-ui/server.js:2252-2255 | scanning [a,b), then [b,c), and merging equals scanning [a,c) |
| `TopicScan.FullScanIsView` | docker/lakehouse-ui/server.js:2719-2763 | an unbounded scan of a topic, empty partitions skipped, is the last-write-wins view of all partitions |
| `TopicScan.ViewAt` | docker/lakehouse-ui/server.js:2760-2762 | the view holds, for each key, its last message in the last listed partition that has it |
| `TopicScan.FullScanIsCompaction` | docker/lakehouse-ui/server.js:2248-2346 | with each key confined to one partition the scan is log compaction: the key's last message in the topic, no other key |
| `TopicScan.MergeOrderIrrelevant` | docker/lakehouse-ui/server.js:2719-2763 | and then the order in which partitions are listed, batched and merged does not matter |
| `Reconciliation.CompareDiff` | docker/lakehouse-ui/server.js:3228-3263 | the diff lists each source key that is not alive and each live key that is not in the source exactly once, and counts the common ones |
| `Reconciliation.EmptyDiff` | docker/lakehouse-ui/server.js:3255-3263 | the diff is empty if and only if the live keys are the source's keys, and then everything matches |
| `Reconciliation.FixOpMeans` | docker/lakehouse-ui/server.js:2293-2298 | a written row is read as deleted if and only if it has a column op that says d within what the reader inspects, and likewise for c and u |
| `Reconciliation.BuildFix` | docker/lakehouse-ui/server.js:3845-4123 | the request appends a snapshot for each missing row that is found and not skipped, then a delete and a tombstone per ghost, and ends before the ghosts when rows are missing but none is left to write |
| `Reconciliation.ReplicationsInOrder` | docker/lakehouse-ui/server.js:3906-3984 | the request writes one snapshot message for each missing row that is found and not skipped, in their order, and no other |
| `Reconciliation.RetractionsInOrder` | docker/lakehouse-ui/server.js:4102-4123 | and a delete and then a tombstone for each ghost, in their order |
| `Reconciliation.RowKeyCut` | docker/lakehouse-ui/server.js:3953-3976 | the key that the fix writes for a row is cut by the full scan if and only if a key column or a text of the row's key has a TAB or a backslash before a t |
| `Reconciliation.ViewAppend` | docker/lakehouse-ui/server.js:2760-2762 | an appended message shows in the view unless it has no key or a later partition holds its key |
| `Reconciliation.ViewApply` | docker/lakehouse-ui/server.js:4041-4050 | after any batch of messages that agree on one key's partition and operation, that key reads as the batch says if it is touched and nothing later holds it, and is otherwise unchanged |
| `Reconciliation.AtMissing` | docker/lakehouse-ui/server.js:3906-3984 | a missing row whose key no other message of the request carries is alive after the fix if and only if its key survives being written and read, by a reader that does not cut the line inside it, it was not skipped, carries an operation other than delete, and no later partition holds its key |
| `Reconciliation.AtGhost` | docker/lakehouse-ui/server.js:4102-4123 | such a ghost is gone after the fix if and only if the second phase is reached, its key reads back, and no later partition holds its key |
| `Reconciliation.ConvergedRowsReadable` | docker/lakehouse-ui/server.js:3953-3976 | a request that converged has no row whose key reads back as another: rows cannot stand in for each other, since reading back only ever takes a key closer to one that survives |
| `Reconciliation.FixConverges` | docker/lakehouse-ui/server.js:3742-4123 | for any log, source and request from a compare, and for the reader of either kind of line, the live keys after the fix are exactly the source's keys if and only if every key of the request reads back as itself, not cut by that reader, and the request settles |
| `Reconciliation.NextCompareIsClean` | docker/lakehouse-ui/server.js:3253-3263 | the next diff is empty if and only if the request could be read back and settled, and then matched equals the source size |
| `Reconciliation.OnePartitionConverges` | docker/lakehouse-ui/server.js:3742-4123 | with one partition the fix converges if and only if all keys read back uncut, the pre-check skips none, and no row's own op column reads as a delete |
| `Reconciliation.ReplayIsIdempotent` | docker/lakehouse-ui/server.js:4041-4050 | appending the same messages twice leaves the view as once, whatever they are |
| `Reconciliation.ReplayKeepsConvergence` | docker/lakehouse-ui/server.js:3856-4123 | sending a request that converged again, with any outcome of its pre-check, leaves the topic reconciled |
| `Reconciliation.PaddedKeyGoesAstray` | docker/lakehouse-ui/server.js:3955-3976 | for every zero-padded number in the safe range whose row is fetched the fix writes the unpadded key: the row stays missing and the stray key is all that becomes live |
| `Reconciliation.AwkwardKeyStaysMissing` | docker/lakehouse-ui/server.js:2281-2289 | for every key text with a TAB or a backslash before a t that survives otherwise, the fix of that row converges for the targeted reader and never for the full scan |
| `Reconciliation.GhostInLaterPartitionStays` | docker/lakehouse-ui/server.js:4113-4121 | a ghost key routed to an earlier partition than its original survives the fix |
| `Reconciliation.IdTablesNeverConverge` | docker/lakehouse-ui/server.js:2237-2246 | for a table keyed by id without a column _id no fix of missing rows changes what compare sees, so it converges only if none is missing |
| `TargetedScan.RangesTile` | docker/lakehouse-ui/server.js:2588-2603 | tail and head ranges tile [0, endOffset): every offset is in one range and in one only |
| `TargetedScan.StreamsOfMeans` | docker/lakehouse-ui/server.js:2563-2603 | one consumer reads the last two million messages of a partition and another all before them, if there are any |
| `TargetedScan.ConcurrencyMeans` | docker/lakehouse-ui/server.js:2564-2564 | a setting of 0 reads all partitions at once, a positive one that many or as many as there are, a negative one a single one |
| `TargetedScan.PlanMeans` | docker/lakehouse-ui/server.js:2564-2603 | each partition gives its consumers to one batch, and the partitions with messages fill the batches in their order, as many to each as the concurrency says |
| `TargetedScan.StreamsCover` | docker/lakehouse-ui/server.js:2588-2603 | the consumers together read exactly the keys that a full scan with the same line reader reads |
| `TargetedScan.ReadersDiffer` | docker/lakehouse-ui/server.js:2281-2409 | on one log the consumers read every key that occurs, the full scan those that occur in a message whose line it does not cut inside the key |
| `TargetedScan.SharedSearch.OnLine` | docker/lakehouse-ui/server.js:2518-2538 | one line takes its key off the wanted set only if it was still wanted and unseen, records its operation once, and stops the consumer when nothing is wanted |
| `TargetedScan.BatchesSorted` | docker/lakehouse-ui/server.js:2564-2573 | at any concurrency consumers are started in the order of the listing, later ones never in an earlier batch |
| `TargetedScan.ExecKeepsInv` | docker/lakehouse-ui/server.js:2469-2606 | under every interleaving within the batches and every abort, found and wanted partition the original set, each found key has the operation of some consumer's first message of it with no earlier batch having it, and no processed line with a wanted key is lost |
| `TargetedScan.ScanSoundAndComplete` | docker/lakehouse-ui/server.js:2469-2606 | found plus wanted is conserved, and a finished scan has found exactly the wanted keys that occur in the ranges |
| `TargetedScan.FirstIsReachable` | docker/lakehouse-ui/server.js:2526-2573 | in the first batch that has a wanted key, every consumer's first message of it is what some finished schedule reports |
| `TargetedScan.TargetedAgreesWithFullScan` | docker/lakehouse-ui/server.js:2526-2606 | on any log, each reader cutting lines its own way, every finished schedule at any concurrency gives the full scan restricted to the wanted keys if and only if, in the first batch that has a wanted key, the first message of every range that has it already carries the operation that the full scan ends with |
| `TargetedScan.SingleOccurrenceAgrees` | docker/lakehouse-ui/server.js:2372-2606 | when each wanted key occurs at most once the two agree at any concurrency if and only if the full scan cuts none of their lines inside the key |
| `TargetedScan.TargetedCompareHasNoGhosts` | docker/lakehouse-ui/server.js:3208-3262 | a compare that looks up the source's keys never reports a ghost |
| `TargetedScan.TargetedCompareExact` | docker/lakehouse-ui/server.js:3236-3257 | at any concurrency such a compare reports exactly the missing rows under every schedule if and only if the first messages in the first batch that has a key tell whether it is live |
| `TargetedScan.ConcurrencyMatters` | docker/lakehouse-ui/server.js:2948-2948 | a topic on which compare's default of one partition at a time is always right and reading all at once is not |
| `TargetedScan.PreCheckBlocksDeletedRows` | docker/lakehouse-ui/server.js:3876-3885 | a fix whose pre-check used the targeted reader converges under every schedule if and only if it would without the pre-check and the first message of every missing key in every range is a delete |
| `TargetedScan.KeepsFirstNotLatest` | docker/lakehouse-ui/server.js:2368-2368 | a key created and then deleted, with lines that both readers cut alike, is reported alive, against the comment, at any concurrency |
| `TargetedScan.CutKeyIsSeenByOne` | docker/lakehouse-ui/server.js:2276-2289 | a single message whose line the full scan cuts inside the key is found by the targeted reader and not by the full scan |
| `CsvLine.ParseCsvLine` | docker/lakehouse-ui/server.js:4193-4207 | on every line, well formed or not, the parser computes the one field list that compare's parser computes too |
| `CsvLine.ParsePgCsvRow` | docker/lakehouse-ui/server.js:3010-3024 | on every line the result is that same field list with empty fields as null |
| `CsvLine.FieldsAreUnquotedPieces` | docker/lakehouse-ui/server.js:4193-4207 | on every line, well formed or not, the fields are the pieces between the commas that have an even number of quotes before them, each unquoted on its own |
| `CsvLine.RoundTrip` | docker/lakehouse-ui/server.js:3010-3024 | any non-empty list of fields, quoted as section 2 of RFC 4180 asks wherever needed and anywhere else, parses back to itself |
| `CsvLine.RowRoundTrip` | docker/lakehouse-ui/server.js:3022-3023 | and compare reads the same fields, empty ones as null |
| `CsvLine.QuotingIsInjective` | docker/lakehouse-ui/server.js:4193-4207 | two lists of fields with the same quoted form are equal |
| `LineStream.KafkaStream.Data` | docker/lakehouse-ui/server.js:2167-2173 | a chunk appends its complete lines to the queue, keeps the incomplete one, and wakes the consumer |
| `LineStream.DataAccounted` | docker/lakehouse-ui/server.js:2167-2173 | a chunk leaves what was delivered, queued and buffered accounting for exactly the text received, the chunk included |
| `LineStream.EndAccounted` | docker/lakehouse-ui/server.js:2174-2178 | the end turns the pieces held into the lines of the whole text, an empty last piece dropped |
| `LineStream.NextAccounted` | docker/lakehouse-ui/server.js:2183-2189 | a call moves the oldest line from the queue to what was delivered and loses nothing |
| `LineStream.WaitingMeans` | docker/lakehouse-ui/server.js:2183-2189 | a call waits if and only if it finds neither a line nor the end, and any output wakes it |
| `Prelude.SplitConcat` | docker/lakehouse-ui/server.js:2168-2171 | splitting text that arrives in two parts carries only the last piece over |
| `LineStream.NothingLost` | docker/lakehouse-ui/server.js:2160-2190 | at every moment what was delivered, queued and buffered makes up exactly the text received, and nobody waits while there is something to deliver |
| `LineStream.ChunkInvariant` | docker/lakehouse-ui/server.js:2160-2190 | for every chunking and interleaving a consumer told of the end was given the lines of the whole text once each, in order, and before that a prefix |
| `LineStream.SameTextSameLines` | docker/lakehouse-ui/server.js:2167-2178 | two runs over the same text, however cut, have delivered the same lines when they end |
| `LineStream.EndIsReached` | docker/lakehouse-ui/server.js:2183-2189 | after the end of the output finitely many calls reach the end of the stream |
| `PullQuery.KsqlQuery` | docker/lakehouse-ui/server.js:4322-4391 | the reader returns the server's rows up to the cap it found in the query text, and at least one if there is one |
| `PullQuery.PullByPKs` | docker/lakehouse-ui/server.js:4503-4577 | the batch loop collects the union over the 500-key batches |
| `PullQuery.ReadMeans` | docker/lakehouse-ui/server.js:4324-4365 | the rows read are the first ones, as many as the LIMIT or else 500 allow, and one at least if there is one |
| `PullQuery.BatchesMean` | docker/lakehouse-ui/server.js:4527-4528 | the batches make up the keys in their order, 500 to each but the last |
| `PullQuery.PulledByBatches` | docker/lakehouse-ui/server.js:4527-4566 | a key is pulled if and only if the read of some batch has it |
| `PullQuery.UncutIsExact` | docker/lakehouse-ui/server.js:4527-4575 | if no batch has more keys in the table than its cap, the union equals one unbatched lookup, for any number of keys |
| `PullQuery.DefaultCapLosesNothing` | docker/lakehouse-ui/server.js:4325-4325 | the default cap of 500 never cuts a batch, so without a LIMIT in the text nothing is lost |
| `PullQuery.PullIsExactIffUncut` | docker/lakehouse-ui/server.js:4324-4365 | on distinct keys the union is the unbatched lookup if and only if in no batch are more keys in the table than the LIMIT in its text, or the default, allows |
| `PullQuery.LimitInKeyLosesRow` | docker/lakehouse-ui/server.js:4324-4325 | two keys of the table, one of them reading like a LIMIT of 1, lose a row |
| `TtlLruCache.TtlCache.Get` | star-knowledge-catalog/catalog/database.py:97-106 | the store and the answer are those of the get that `TtlLruCache.GetMeans` describes |
| `TtlLruCache.GetMeans` | star-knowledge-catalog/catalog/database.py:97-106 | a fresh hit moves the entry unchanged to the young end and leaves the others in their order, an expired hit leaves exactly the others, a miss leaves everything; the answer is the value of a fresh hit and nothing else |
| `TtlLruCache.TtlCache.Set` | star-knowledge-catalog/catalog/database.py:108-114 | the entry becomes the youngest with a fresh expiry, and the oldest goes when the size is exceeded |
| `TtlLruCache.EvictsLeastRecentlyUsed` | star-knowledge-catalog/catalog/database.py:97-124 | over every history the entries in their order are those of a cache that numbers each set and each hit and evicts the key with the lowest number |
| `TtlLruCache.AnswersAlike` | star-knowledge-catalog/catalog/database.py:97-106 | and it gives the same answers |
| `TtlLruCache.SetDropsOldestUse` | star-knowledge-catalog/catalog/database.py:108-114 | setting a new key in a full cache drops the entry whose last set or hit is the oldest in the history, and only that one |
| `TtlLruCache.DeleteMeans` | star-knowledge-catalog/catalog/database.py:116-118 | deleting leaves exactly the entries of other keys, in their order; a missing key changes nothing |
| `TtlLruCache.TtlCache.ClearPrefix` | star-knowledge-catalog/catalog/database.py:120-124 | deleting the collected keys one by one comes to filtering by prefix |
| `TtlLruCache.ClearPrefixMeans` | star-knowledge-catalog/catalog/database.py:120-124 | exactly the keys with the prefix go, the others keep their order |
| `TtlLruCache.Inclusion` | star-knowledge-catalog/catalog/database.py:97-124 | after the same history caches of sizes m <= n stay within their sizes and the smaller's recency order is a subsequence of the larger's, values and expiries equal, lagging by at most n - m entries |
| `TtlLruCache.LargerAnswersMore` | star-knowledge-catalog/catalog/database.py:97-106 | whatever the smaller cache answers, the larger one answers the same |
| `TwoTierCache.Replica.CacheGet` | star-knowledge-catalog/catalog/database.py:139-152 | the local entry if fresh, else the shared one if the call succeeds, which is then kept locally |
| `TwoTierCache.Replica.CacheSet` | star-knowledge-catalog/catalog/database.py:155-162 | the local cache always takes the value, Redis only if the call had its effect |
| `TwoTierCache.Replica.CacheInvalidate` | star-knowledge-catalog/catalog/database.py:165-171 | the key goes locally, and from Redis if the call had its effect; what that leaves of everything else is `TwoTierCache.RedisIsLastEffect` and `TwoTierCache.LocalIsView` |
| `TwoTierCache.Replica.CacheInvalidatePrefix` | star-knowledge-catalog/catalog/database.py:174-186 | the prefix goes locally, and from Redis as far as the scan got |
| `TwoTierCache.RedisIsLastEffect` | star-knowledge-catalog/catalog/database.py:155-186 | after every history each key of Redis is as the last call that had an effect on that key left it, so that no call touches another key |
| `TwoTierCache.LocalIsView` | star-knowledge-catalog/catalog/database.py:139-186 | and each local cache is as the gets, sets, deletions and prefix deletions of its own replica leave it, a get that finds nothing keeping a copy of what Redis answers |
| `TwoTierCache.AnswerFromHistory` | star-knowledge-catalog/catalog/database.py:139-152 | an answer is what the local cache has, and else what the last effective call on the key left in Redis and has not run out |
| `TwoTierCache.SetIsAnswered` | star-knowledge-catalog/catalog/database.py:139-162 | a value whose set reached Redis is answered by every replica that asks within cache_ttl with no set or removal of the key in between, but for one that still holds a fresh local copy from before |
| `TwoTierCache.BoundedStaleness` | star-knowledge-catalog/catalog/database.py:127-162 | with any number of replicas and any failures a value answered at time t was set no earlier than t - 4/3 cache_ttl |
| `TwoTierCache.StalenessIsTight` | star-knowledge-catalog/catalog/database.py:128-131 | and some history reaches that bound, for every cache_ttl and every local size above 0 |
| `TwoTierCache.InvalidationTakesHold` | star-knowledge-catalog/catalog/database.py:139-186 | once an invalidation has reached Redis, no replica answers with an older value later than cache_ttl/3 after it, whatever else happens or fails |
| `TwoTierCache.LostInvalidationServesOldValue` | star-knowledge-catalog/catalog/database.py:165-186 | some later history answers an older value more than cache_ttl/3 after a call that should remove its key if and only if the call had no effect on that key in Redis and Redis held a value set before it that ran out after it (by more than cache_ttl/3, if nothing is kept locally) |
| `IncrementalLoader.BatchLoad` | docker/duckdb/stargraph_iceberg_engine.py:295-327 | the loop writes all rows, or the batches before the cut, for any batch size, and only a run that reaches its end saves the last timestamp |
| `IncrementalLoader.TargetMeans` | docker/duckdb/stargraph_iceberg_engine.py:295-318 | a run that is cut after some batches has written exactly that many batches of rows from the front, one that is not all of them |
| `IncrementalLoader.BatchLoadIsRun` | docker/duckdb/stargraph_iceberg_engine.py:295-327 | what the loop does, cut or not, is a run of the loader's state machine |
| `IncrementalLoader.CrashSafe` | docker/duckdb/stargraph_iceberg_engine.py:131-166 | through completed runs, cut runs and updates stamped later than the watermark and than what a run in progress has seen, in any order and with any ties, every row at or below the saved watermark is in the graph with its current values |
| `IncrementalLoader.CutBetweenTies` | docker/duckdb/stargraph_iceberg_engine.py:311-316 | a commit of several rows under one stamp, and a run cut between two of them, are among those runs |
| `IncrementalLoader.CompletedRunAgrees` | docker/duckdb/stargraph_iceberg_engine.py:311-325 | a run that completes leaves the graph agreeing with the whole table its query saw |
| `IncrementalLoader.CompletedRunIsExact` | docker/duckdb/stargraph_iceberg_engine.py:131-166 | with no update since the run began, that is the whole current table |
| `IncrementalLoader.NothingLeftToRead` | docker/duckdb/stargraph_iceberg_engine.py:131-166 | and the next incremental run would select no row of it |
| `IncrementalLoader.WatermarkAdvances` | docker/duckdb/stargraph_iceberg_engine.py:318-325 | the new watermark is the timestamp of some row that was seen and no row that was seen is later; it is never earlier than the old, and later after an incremental run that wrote anything |
| `IncrementalLoader.WatermarkNeverGoesBack` | docker/duckdb/stargraph_iceberg_engine.py:112-118 | over whole runs of the system the watermark never goes back |
| `IncrementalLoader.TiedUpdateIsLost` | docker/duckdb/stargraph_iceberg_engine.py:135-136 | on every reachable state an update keeps the promise of the watermark if and only if it is stamped strictly later or the graph holds it already |
| `IncrementalLoader.LateUpdateIsNeverLoaded` | docker/duckdb/stargraph_iceberg_engine.py:135-136 | an update that the watermark has passed is loaded by no incremental run, whatever else happens, until its key is updated again |
| `GraphScope.EdgeLoadIsDedup` | docker/duckdb/stargraph_sql_proxy.py:402-411 | merging edge rows into any graph is a keyed dedup of edges and of mentioned nodes that keeps what is there |
| `GraphScope.NodeLoadIsDedup` | docker/duckdb/stargraph_sql_proxy.py:432-437 | merging node rows keeps the first label of each id and sets the rows' properties over the node's own |
| `GraphScope.EdgeRowsGiveFirsts` | docker/duckdb/stargraph_sql_proxy.py:402-411 | from an empty scope there is one edge per pair with its first row's type and properties, and one node per id labelled where it is first mentioned |
| `GraphScope.NodeRowsGiveFirstLabelLastProps` | docker/duckdb/stargraph_sql_proxy.py:432-437 | from an empty scope a node has its first row's label and its last row's properties |
| `GraphScope.LoadTwice` | docker/duckdb/stargraph_sql_proxy.py:575-579 | loading the same rows again changes nothing, on any graph |
| `GraphScope.ScopeStore.CheckCache` | docker/duckdb/stargraph_sql_proxy.py:470-519 | the outcome is one that the check allows, and the scope is kept or evicted accordingly; `GraphScope.CheckMeans` says which outcomes those are |
| `GraphScope.CheckMeans` | docker/duckdb/stargraph_sql_proxy.py:470-519 | with the cache on the check can hit if and only if some node is stamped no longer ago than the time to live, evict if and only if some node is stamped longer ago, and miss without evicting if and only if the scope is empty or some node has no stamp |
| `GraphScope.ScopeStore.LoadRows` | docker/duckdb/stargraph_sql_proxy.py:575-589 | a load merges the rows and stamps every node of the scope; no rows change nothing |
| `GraphScope.HitQueriesAsLoaded` | docker/duckdb/stargraph_sql_proxy.py:494-516 | a hit matches the same records as the query of the load that filled the scope, and at least one |
| `GraphScope.EdgeRecordsOfRows` | docker/duckdb/stargraph_sql_proxy.py:402-425 | after a load of edge rows the query gives one record for each pair of ids, with the type of its first row and the labels of where its ends stand first |
| `GraphScope.NodeRecordsOfRows` | docker/duckdb/stargraph_sql_proxy.py:432-448 | and after one of node rows a record for each id with its first label, the properties that its rows leave and the stamp |
| `GraphScope.AnswerIsCapped` | docker/duckdb/stargraph_sql_proxy.py:424-447 | an answer is all the records, or 500 of them if there are more |
| `GraphScope.ServeKeepsInvariant` | docker/duckdb/stargraph_sql_proxy.py:294-361 | one request serves a graph aged at most the time to live or its own result loaded into an empty scope, and leaves the scope empty or holding one load |
| `GraphScope.CacheIsOneLoad` | docker/duckdb/stargraph_sql_proxy.py:294-361 | over every sequential run for one SQL the scope is empty or exactly one earlier result with one stamp, and every answer is sound in that sense |
| `GraphScope.HitWhileFresh` | docker/duckdb/stargraph_sql_proxy.py:483-516 | a scope that holds a load hits if and only if the load is no older than the time to live, and is emptied otherwise |
| `GraphScope.RunIsDetermined` | docker/duckdb/stargraph_sql_proxy.py:294-361 | the requests determine every run: which load the scope holds before each request, that a request within that load's time to live leaves the scope and answers from it, and that any other answers from its own result |
| `GraphScope.SwitchedOffPilesUp` | docker/duckdb/stargraph_sql_proxy.py:300-300 | with the cache off two results pile up in the scope |
| `GraphScope.OffRunPilesUp` | docker/duckdb/stargraph_sql_proxy.py:300-361 | over every run with the cache off the scope is all earlier results merged in their order, and every answer comes from it |
| `GraphScope.OneLoadIffCacheOn` | docker/duckdb/stargraph_sql_proxy.py:623-625 | every run keeps the scope to one load if and only if the time to live is positive |
| `InlineProps.ParseInlineProps` | docker/duckdb/stargraph_sql_proxy.py:817-825 | the loop collects what the comma-separated pieces give one by one |
| `InlineProps.InlineRoundTrip` | docker/duckdb/stargraph_sql_proxy.py:817-825 | inline properties, written out and parsed, come back unchanged if and only if no literal holds a comma |
| `InlineProps.WrittenKeyIsRead` | docker/duckdb/stargraph_sql_proxy.py:817-825 | every name comes back, with another value if its literal held a comma |
| `InlineProps.ReadCut` | docker/duckdb/stargraph_sql_proxy.py:817-825 | of a literal with commas the condition keeps what stands before the first one, without blanks at its end |
| `InlineProps.ReadCutOnce` | docker/duckdb/stargraph_sql_proxy.py:817-825 | what stands behind the comma is dropped if it has no colon and no further comma |
| `CypherTranslation.CustomerRows` | manifests/duckdb/duckdb_iceberg_setup.sql:39-82 | what a customer with one property looks like in the customers table and in the nodes table |
| `CypherTranslation.OnePropertyResolves` | manifests/duckdb/duckdb_iceberg_setup.sql:39-82 | the names that an inline property can ask for in each table |
| `CypherTranslation.LettersConvert` | docker/duckdb/stargraph_sql_proxy.py:719-730 | each letter converts to its counterpart, and exactly the texts without letters of the other kind stay as they are |
| `CypherTranslation.CanonicalMeans` | docker/duckdb/stargraph_sql_proxy.py:719-730 | a label is spelled as the translator spells it if and only if no small letter begins it and no capital follows |
| `CypherTranslation.ConjunctivePreserves` | docker/duckdb/stargraph_sql_proxy.py:732-761 | for a labelled node whose properties are columns of its table, with inline literals without commas and a conjunctive WHERE without dotted words in its literals, the SQL returns exactly the matching nodes that are not deleted, on every graph |
| `CypherTranslation.DisjunctionLeaksDeleted` | docker/duckdb/stargraph_sql_proxy.py:747-755 | with an OR whose first disjunct some row can meet a deleted node is selected, since that disjunct escapes the deletion filter |
| `CypherTranslation.WrittenIsMet` | docker/duckdb/stargraph_sql_proxy.py:734-744 | without commas and dotted words in the way, every first disjunct that can be met together with the inline properties is met by some row after the translation |
| `CypherTranslation.OddLabelIsMissed` | docker/duckdb/stargraph_sql_proxy.py:719-733 | a label that is spelled otherwise than the translator spells it finds no node of that label |
| `CypherTranslation.PreservesIff` | docker/duckdb/stargraph_sql_proxy.py:719-761 | for every pattern that can match, and whose first disjunct can be met after the translation if there is an OR, meaning is preserved on every graph if and only if the names in the pattern are columns of the table, the label is spelled as the translator spells it, the WHERE has no OR, none of its literals a dotted word and no inline literal a comma |
| `CypherTranslation.DottedLiteralIsChanged` | docker/duckdb/stargraph_sql_proxy.py:827-828 | an e-mail address in a WHERE loses the part before its dot |
| `CypherTranslation.StripReference` | docker/duckdb/stargraph_sql_proxy.py:827-828 | of a reference the name stays and what stands before the dot goes |
| `CypherTranslation.PlainMeans` | docker/duckdb/stargraph_sql_proxy.py:827-828 | exactly the texts without a dot between two word characters come through the stripping unchanged |
| `CypherTranslation.RelPreserves` | docker/duckdb/stargraph_sql_proxy.py:784-809 | a labelled one-hop pattern that the translation leaves as it is returns exactly the matches whose nodes and relationship are live, on graphs whose joinable edges are faithful, all nodes having a row in the nodes table |
| `CypherTranslation.RelPreservesIffFaithful` | docker/duckdb/stargraph_sql_proxy.py:784-809 | on a graph the join is right for every pattern that the translation leaves as it is if and only if no edge that can be joined is deleted or meets, by a shared id, a node of another label, a customer included |
| `CypherTranslation.RelPatternPreservesIff` | manifests/duckdb/duckdb_iceberg_setup.sql:39-82 | a pattern that matches something on one of those graphs is right on all of them if and only if neither end is a customer, labels and type are spelled as the translator spells them, and its inline properties are columns of the nodes table with literals without commas |
| `CypherTranslation.DeletedEdgeIsReturned` | docker/duckdb/stargraph_sql_proxy.py:784-809 | a deleted relationship between two live nodes is returned, whatever the rest of the graph |
| `LiveFiles.ResolveLiveFiles` | docker/databricks-notebooks/nb_multi_table_auto_reader.py:280-328 | the outcome is that of the status fold over the data manifests, which `LiveFiles.DeleteManifestSkips`, `LiveFiles.LiveOnManifests` and `LiveFiles.LiveInOrder` describe on the manifests themselves |
| `LiveFiles.DeleteManifestSkips` | docker/databricks-notebooks/nb_multi_table_auto_reader.py:280-286 | the table is skipped if and only if some manifest has content 1 |
| `LiveFiles.LiveOnManifests` | docker/databricks-notebooks/nb_multi_table_auto_reader.py:289-328 | with statuses 0, 1 and 2 a path is live, and listed once, if and only if some row of a manifest of content 0 names it, normalised, by its data file or, without one, by its deleted file, with content 0, and no such row has status 0 |
| `LiveFiles.LiveInOrder` | docker/databricks-notebooks/nb_multi_table_auto_reader.py:302-328 | the live files come in the order in which the rows first name them |
| `LiveFiles.NormIdempotent` | docker/databricks-notebooks/nb_multi_table_auto_reader.py:189-190 | normalising a path twice is normalising it once |
| `LiveFiles.NormReplacesEach` | docker/databricks-notebooks/nb_multi_table_auto_reader.py:189-190 | wherever s3a:// stands it becomes s3://, the text before and behind it being normalised on its own |
| `LiveFiles.CleanIsKept` | docker/databricks-notebooks/nb_multi_table_auto_reader.py:189-190 | text without it stays as it is |
| `LiveFiles.NormIsSpellingBlind` | docker/databricks-notebooks/nb_multi_table_auto_reader.py:189-190 | the s3a and s3 spellings of a location normalise alike |
| `LiveFiles.FoldIsStrongest` | docker/databricks-notebooks/nb_multi_table_auto_reader.py:307-326 | the fold keeps, for each path, deleted over added over existing |
| `LiveFiles.LiveExactly` | docker/databricks-notebooks/nb_multi_table_auto_reader.py:305-328 | with statuses 0, 1, 2 in the code's own numbering the live files are those with an entry and no deleted entry, each once |
| `LiveFiles.FoldAt` | docker/databricks-notebooks/nb_multi_table_auto_reader.py:319-326 | whatever the statuses, a path ends as deleted if it ever was, else as added if it ever was, else with the status it came with first |
| `LiveFiles.OrderAndRepetitionIrrelevant` | docker/databricks-notebooks/nb_multi_table_auto_reader.py:280-328 | permuting and repeating manifests and rows, or spreading the rows over manifests differently, never changes the outcome if and only if delete manifests skip the table or no path comes as existing and with a status outside the numbering, and neither as added nor as deleted |
| `LiveFiles.SpellingIrrelevant` | docker/databricks-notebooks/nb_multi_table_auto_reader.py:309-316 | rows that differ only in the spelling of the scheme give the same entries |
| `LiveFiles.KnownStatusesAreUnambiguous` | docker/databricks-notebooks/nb_multi_table_auto_reader.py:306-306 | with statuses from the numbering there is no such path |
| `PositionDeletes.BuildIndex` | docker/databricks-notebooks/nb_customer_test_refresh.py:133-142 | the loops build the index of the records of all delete files, which `PositionDeletes.IndexExact` describes |
| `PositionDeletes.IndexExact` | docker/databricks-notebooks/nb_customer_test_refresh.py:139-159 | a position of a file is in the index built over all delete files if and only if a record of some delete file with a path names it, in either spelling of the path |
| `PositionDeletes.ApplyDeletes` | docker/databricks-notebooks/nb_customer_test_refresh.py:148-164 | live data files are read in order with their dead positions dropped, failing on a position out of range, and raw rows are counted |
| `PositionDeletes.IndexedReadIsAntiJoin` | docker/databricks-notebooks/nb_customer_test_refresh.py:133-164 | the read succeeds if and only if every position that some delete file names in a file that is read is in range, and is then, in order, the rows that no delete file names, of the files with a path and a status other than 0 |
| `PositionDeletes.DeleteOrderIrrelevant` | docker/databricks-notebooks/nb_customer_test_refresh.py:134-142 | only which rows are named matters: delete files may be cut up, reordered, repeated and respelled |
| `PositionDeletes.DeleteFilesAnyOrder` | docker/databricks-notebooks/nb_customer_test_refresh.py:134-142 | in particular the same delete files in another order and number give the same rows |
| `PositionDeletes.RowsLeft` | docker/databricks-notebooks/nb_customer_test_refresh.py:158-165 | with each file listed once the rows left are the raw rows minus the distinct rows, by file and position, that records of delete files name in the files read |
| `ColumnTree.Column.constructor` | stardata/doris-patch/Column.java:256-274 | a new column carries the child tree that its type describes |
| `ColumnTree.Column.CreateChildrenColumn` | stardata/doris-patch/Column.java:346-364 | one child per component of the type, with the component's name, order and nullability |
| `ColumnTree.Column.ToThrift` | stardata/doris-patch/Column.java:638-670 | the Thrift tree of a column is a function of its tree, its root name stripped |
| `ColumnTree.Column.ToPb` | stardata/doris-patch/Column.java:843-926 | the protobuf tree of a column is a function of its tree, every name stripped |
| `ColumnTree.SerialisersDescribeType` | stardata/doris-patch/Column.java:638-926 | for every type each serialiser writes exactly the tree read off the type, at every depth, or fails; both fail if and only if some struct has no fields |
| `ColumnTree.TypeReadsBack` | stardata/doris-patch/Column.java:638-926 | the type can be read back off the Thrift output, nullability and names included, and off the protobuf output if and only if no nested field has the shadow prefix, no scalar being called ARRAY, MAP or STRUCT |
| `ColumnTree.PrefixGoes` | stardata/doris-patch/Column.java:846-849 | of a name with the shadow prefix exactly the prefix goes, any other name stays |
| `ColumnTree.SerialisersAgree` | stardata/doris-patch/Column.java:703-926 | where they succeed the two trees have the same shape, order, names, types and nullability if and only if no nested field has the shadow prefix |
| `ColumnTree.SerialisersIdentical` | stardata/doris-patch/Column.java:716-721 | and are identical if and only if, besides, the type is a scalar or the column has no aggregation |

## Left out

- HTTP routes, child processes, kubectl, progress streams, and the drivers of Kafka, Redis, Memgraph, DuckDB and S3: each store is a sequence, a map or a set, and what a call returns is a parameter.
- `docker/lakehouse-ui/server.js`: extra compare columns, Oracle's upper-case columns, broker-time windows of the targeted reader and the post-fix offset anchor; a message is taken as what a reader makes of it, and reading the operation off the first 300 characters of a value enters only through `SourceRow.opVisible`.
- `docker/lakehouse-ui/server.js`: offsets are indexes, so gaps left by compaction or transactions are not modelled; an aborted full scan ends in an exception and has no result.
- `docker/lakehouse-ui/server.js`: the source is taken not to change between compare and fix, the producer's partitioner is an arbitrary function of the key text, and the order in which a Map yields its keys is left open.
- `docker/lakehouse-ui/server.js`: the MongoDB branch of the fix, apart from its key, and the verify phase, which reads only.
- TargetedScan.ExecKeepsInv: the broker-time window, in which one consumer reads each partition, and consumers that end early on a timeout.
- LineText.FullSplitExact: how a runtime prints a number is abstract, under the law `LineText.PlainNumbers` that the text has neither a backslash nor a TAB. Neither half of a line that is cut inside its key is taken to be JSON (the left half ends inside a string), so the message is dropped.
- Reconciliation.PaddedKeyGoesAstray: the SELECT by which the fix fetches rows is taken to find the missing rows that are in the table.
- TargetedScan.TargetedCompareExact: the topic is as the targeted reader reads it, since that compare has no other reader.
- KeyCodec.ReadBackDrifts: what JavaScript does with numbers and JSON text is abstract, under two laws stated in `KeyCodec.ValidRuntime`: a printed number prints the same again, and a string is shorter than the JSON text around it.
- PullQuery.KsqlQuery: the timeout, which the code treats as a clean end, and the decoding of payloads; the position of LIMIT in the query text is an arbitrary function of the keys.
- LineStream.ChunkInvariant: characters whose bytes are split between chunks, and two calls of next at once.
- TtlLruCache.TtlCache.Get: the stored value is never None, and the lock makes each method one step; clock readings are reals.
- TwoTierCache.BoundedStaleness: every cache call is one step, all replicas and Redis share one clock, and a cached value is never null; a prefix with pattern characters of SCAN is taken literally.
- IncrementalLoader.CrashSafe: the three node loaders only. The purchases loader saves its watermark before its second load (docker/duckdb/stargraph_iceberg_engine.py:283-290), so the property is not claimed for it; rows without a timestamp, deletions in the source, and the text form of timestamps are not modelled.
- GraphScope.CacheIsOneLoad: requests are sequential, for one SQL without parameters (the scope hashes the SQL only), and Memgraph does not fail; inferring the shape from column names and the caps of 12 and 20 property columns are left out.
- CypherTranslation.ConjunctivePreserves: starts from the parts that the regular expressions find in a pattern with labels; those expressions, and with them literals that hold a closing brace or a keyword such as RETURN or LIMIT, as well as RETURN, ORDER BY, LIMIT and a WHERE on a relationship, are left out. Conditions are equalities on text, labels are ASCII, and a pattern does not name the columns node_type, is_deleted and properties, which hold no property of that name.
- InlineProps.InlineRoundTrip: properties are written with one blank after each colon and comma, and literals stand between apostrophes without escapes. A later piece of a cut literal that itself reads as a condition on is_deleted or properties is taken to be refused.
- LiveFiles.LiveExactly: reading metadata and Avro, the early exit on an empty snapshot, and missing fields beyond a missing file reference; the status numbering is the code's own and no conformance to the Iceberg specification is claimed.
- PositionDeletes.ApplyDeletes: reading Parquet, and data frames with a row index other than 0, 1, 2 and so on.
- ColumnTree.SerialisersDescribeType: variants, aggregate states, and the scalar attributes of a column such as length, precision and default values; SchemaChangeHandler, which defines the shadow prefix, is not part of this model and its text is a constant here.
- `scripts/`, `manifests/duckdb/` except its table definitions, `stardata-access/claims/main.go`, `manifests/polaris-auth-proxy/`, the catalog's routers and schemas, and Doris's validation branches: orchestration, copies and single checks that would add only easy members.
