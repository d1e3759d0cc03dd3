# Nexus: verified models of its permission, cache, index and migration logic

This project models parts of Nexus, a virtual file system with relationship-based access control
(ReBAC), and proves properties of the models. `dafny verify dfyconfig.toml` checks all of it.

- **Permissions** (`RebacGraph`, `Exclusion`, `BulkEvaluator`, `DeepExclusion`, `Inheritance`,
  `FileNamespace`). Namespaces give each relation a rewrite (direct, union, intersection, exclusion,
  tuple-to-userset). Their meaning is the least fixpoint over an arbitrary finite tuple store, cycles
  included, and with exclusions the one set that agrees with itself, rank by rank. The bulk
  evaluator, a depth-limited search with a set of visited keys and a memo shared by a batch, is
  proved against it. A denial at the depth limit or on a revisit becomes a grant under an exclusion:
  `DeepExclusionIsGranted` shows it, and `SearchIsExactOnSmallGraphs` that one key fewer rules it out. The two `file`
  configurations of the flattening migration are compared: closed forms of what each grants,
  exactly what the migration takes away, and how deep the evaluator has to look. The migration's
  notes call the tuple structure backward compatible; `FlatteningCanRevoke` is a grant it loses.
  They also say that permissions list relations directly; in the code they still name unions, and
  the model follows the code.
- **Cache** (`FileCache`, `SingleFlight`). The byte-bounded LRU cache as a class, and the
  lock-recheck-fetch protocol of concurrent fetchers as a step system over all interleavings, with
  the bounded lock table. A lock made while the table is full of locks in use is itself
  dropped at once. So the promise of one backend call per key is false in general;
  `SingleFlightIffRoomy` gives the exact condition on the keys and the bound.
- **Search** (`SearchIndex`, `Grep`). The full-text index that triggers keep in step with the chunk
  table, and the batched and trigram-narrowed forms of the line scan. The migration creates the index
  empty and never issues the `'rebuild'` command, so rows that were there are not found, and updating
  or deleting one takes out postings that were never put in: it raises, or leaves the index's totals
  short so that a later, ordinary delete raises. Section 4.4 of the SQLite FTS5 documentation
  describes such tables; that a `'delete'` raises when a total would fall below zero is how FTS5
  keeps the totals it needs for ranking.
- **Redundant tests** (`TestRedundancy`). Jaccard similarity and containment over exact reals, the
  two reports, the safety of deleting what the second one flags, and what it costs below threshold 1.0.
- **Generated code** (`Metadata`, `RpcNames`). The interning pool, the compact record and the wire
  mapper for any field list and any tables, and the class names generated for RPC methods.
- **Migrations** (`GroupClosure`, `PosixBackfill`, `ApiKeyZones`, `WorkspacePath`, `OperationLog`).
  Tables as values or classes, statements as operations on them.

`Prelude` and `Text` hold shared facts about sets and strings.

Operations that update state in place are classes with `modifies` clauses, or methods with loops;
each is tied to a function of the old state, and the theorems are about those functions. Clocks,
the regular expression, the tokenizer, timestamp printing and parsing, rounding, the bulk matcher
and row selection by SQL are parameters, constrained only by the law a theorem needs.

## Model

| member | source | states |
|---|---|---|
| RebacGraph.FindRelatedObjectsIsExact | src/nexus/bricks/rebac/graph/bulk_evaluator.py:344-368 | the objects found from an entity are exactly the targets of its tuples under the relation |
| RebacGraph.FindSubjectsIsExact | src/nexus/bricks/rebac/graph/bulk_evaluator.py:371-395 | the subjects found are exactly those of tuples on the object under the relation |
| RebacGraph.RelatedIsExact | src/nexus/bricks/rebac/graph/bulk_evaluator.py:205-258 | a tuple-to-userset rewrite looks at exactly what unconditioned tuples of the tupleset lead to from the object and, for every tupleset but `parent`, what they lead from to it |
| RebacGraph.GrantsByNamespace | src/nexus/bricks/rebac/graph/_operators.py:39-155 | a key is granted exactly when its rewrite, written out over tuple fields and the other grants, says so: some member of a union, all of an intersection, the excluded name not held, some joined entity, or an unconditioned tuple of the subject or the public wildcard; an empty or ill-formed operand never grants |
| RebacGraph.GrantSetIsLeastFixpoint | src/nexus/bricks/rebac/graph/_operators.py:39-155 | with exclusions decided by any given set of held keys, the keys with a derivation are a fixpoint of the rewrites and lie in every set closed under them |
| RebacGraph.DerivableMonotone | src/nexus/bricks/rebac/graph/bulk_evaluator.py:31-268 | what a derivation of some height grants, every greater height grants |
| RebacGraph.MoreTuplesGrantMore | src/nexus/bricks/rebac/graph/bulk_evaluator.py:31-268 | as long as no more is excluded, adding tuples revokes nothing and conditioned tuples grant nothing, at any height |
| RebacGraph.Saturation | src/nexus/bricks/rebac/graph/bulk_evaluator.py:28-268 | on a finite closed set of keys, the number of keys is height enough, whatever cycles there are |
| Exclusion.MeaningExists | src/nexus/bricks/rebac/graph/_operators.py:87-155 | keys ranked so that exclusions only ask about lower ones have a set of held keys that is also what the rules grant when exclusions are decided by it |
| Exclusion.MeaningIsUnique | src/nexus/bricks/rebac/graph/_operators.py:87-155 | and only one |
| Exclusion.SelfExclusionHasNoMeaning | src/nexus/bricks/rebac/graph/_operators.py:87-155 | a key that excludes itself has none |
| BulkEvaluator.SearchIsSound | src/nexus/bricks/rebac/graph/bulk_evaluator.py:31-268 | the search with visited keys and a depth limit only grants what has a derivation of that height, where its exclusions are decided right |
| BulkEvaluator.SearchIsComplete | src/nexus/bricks/rebac/graph/bulk_evaluator.py:31-268 | refusing visited keys loses nothing that fits the depth limit |
| BulkEvaluator.SearchIsBoundedDerivation | src/nexus/bricks/rebac/graph/bulk_evaluator.py:28-268 | the search from the top grants exactly what has a derivation of height one more than the limit |
| BulkEvaluator.PlainSearchIsExact | src/nexus/bricks/rebac/graph/bulk_evaluator.py:28-268 | without exclusions, when the reachable keys fit the limit, the search is exactly the least fixpoint |
| BulkEvaluator.RankedSearch | src/nexus/bricks/rebac/graph/bulk_evaluator.py:28-268 | below every key on the path in rank, and with room for what it can reach, the search gives the meaning, exclusions included |
| BulkEvaluator.SearchIsExactOnSmallGraphs | src/nexus/bricks/rebac/graph/bulk_evaluator.py:28-268 | on ranked keys that fit the limit the search is exactly the meaning, exclusions included |
| BulkEvaluator.SelfExclusionIsGranted | src/nexus/bricks/rebac/graph/bulk_evaluator.py:106-118 | a key that excludes itself is granted, because the revisit is denied and the denial inverted |
| DeepExclusion.DeepExclusionIsGranted | src/nexus/bricks/rebac/graph/bulk_evaluator.py:97-104 | the bound is tight: for every depth limit, one key more and the search grants what is excluded |
| BulkEvaluator.StoredAnswerIsValid | src/nexus/bricks/rebac/graph/bulk_evaluator.py:133-166 | a memoised answer is valid at whatever depth and path it is reused |
| BulkEvaluator.UnionIsDenied | src/nexus/bricks/rebac/graph/bulk_evaluator.py:133-268 | denying all premises below the path is a valid denial of a union, and when it may be stored |
| BulkEvaluator.IntersectionIsDenied | src/nexus/bricks/rebac/graph/bulk_evaluator.py:133-268 | denying one premise below the path is a valid denial of an intersection, and when it may be stored |
| BulkEvaluator.ExclusionIsDecided | src/nexus/bricks/rebac/graph/bulk_evaluator.py:133-268 | the answer about an excluded key, at any depth and path of a ranked check, is its meaning |
| BulkEvaluator.Evaluator.Store | src/nexus/bricks/rebac/graph/bulk_evaluator.py:133-136 | storing an answer keeps the memo valid |
| BulkEvaluator.Evaluator.Compute | src/nexus/bricks/rebac/graph/bulk_evaluator.py:31-268 | a check under any path keeps the memo valid, answers only with grants, and denies nothing the remaining depth admits |
| BulkEvaluator.Evaluator.CheckBatch | src/nexus/bricks/rebac/graph/bulk_evaluator.py:31-268 | over one memo, any batch in any order: every positive answer is a grant, and none within the limit is missed; on ranked keys that fit the limit, exclusions included, the answers are exactly the grants |
| FileNamespace.FileWorldHasFileRules | alembic/versions/3e3663b4e99a_flatten_rebac_schema_for_performance.py:38-112 | the two tables of relations and permissions amount to the per-level rules used below |
| Inheritance.UnionClosedForm | alembic/versions/3e3663b4e99a_flatten_rebac_schema_for_performance.py:85-112 | what a union grants by height, as direct and group grants within a number of parent steps |
| FileNamespace.RecursiveClosedForm | alembic/versions/3e3663b4e99a_flatten_rebac_schema_for_performance.py:85-112 | a permission of the old configuration by height n: direct grants within (n-3)/2 parent steps, group grants within (n-4)/2 |
| FileNamespace.RecursiveGrants | alembic/versions/3e3663b4e99a_flatten_rebac_schema_for_performance.py:85-112 | the old configuration grants a permission exactly when some ancestor at any distance carries a sufficient grant, read off the tuples: of the subject or the wildcard, or of a group an unconditioned member tuple puts the subject in |
| FileNamespace.NestedOwnerIsRedundant | alembic/versions/3e3663b4e99a_flatten_rebac_schema_for_performance.py:85-112 | removing `owner` from the `editor` union changes no permission, at any height |
| FileNamespace.FlattenedClosedForm | alembic/versions/3e3663b4e99a_flatten_rebac_schema_for_performance.py:38-82 | the new configuration at height 4 and up: a direct grant on the file or a parent, or a group grant on the file |
| FileNamespace.FlattenedGrants | alembic/versions/3e3663b4e99a_flatten_rebac_schema_for_performance.py:38-82 | the new configuration, over the same tuples: a direct grant on the file or a parent, or a group grant on the file; height 4 decides it whatever the tuples are |
| FileNamespace.GroupHoldsByRelated | src/nexus/bricks/rebac/graph/bulk_evaluator.py:205-258 | a group grant read off the tuples is what the userset rewrite over the direct relation and `member` finds |
| FileNamespace.SharesLetIn | alembic/versions/3e3663b4e99a_flatten_rebac_schema_for_performance.py:38-112 | sharing a file with a group lets every member in, and with the public wildcard everyone, at every sufficient level and under every configuration |
| FileNamespace.FlatteningOnlyRevokes | alembic/versions/3e3663b4e99a_flatten_rebac_schema_for_performance.py:38-112 | for every tuple store the new configuration grants a subset of the old |
| FileNamespace.PermissionsAreOrdered | alembic/versions/3e3663b4e99a_flatten_rebac_schema_for_performance.py:38-112 | execute implies write implies read, in both |
| FileNamespace.FlatteningAgrees | alembic/versions/3e3663b4e99a_flatten_rebac_schema_for_performance.py:38-112 | equal grants when parent tuples are transitively closed and no group grant sits on a parent |
| FileNamespace.FlatteningLosesExactly | alembic/versions/3e3663b4e99a_flatten_rebac_schema_for_performance.py:38-112 | a permission is lost exactly when it was held and every sufficient direct grant is two or more parent steps away and every group grant one or more |
| FileNamespace.FlatteningCanRevoke | alembic/versions/3e3663b4e99a_flatten_rebac_schema_for_performance.py:38-112 | the owner of a grandparent directory loses write |
| FileNamespace.EvaluatorReachOnOld | src/nexus/bricks/rebac/graph/bulk_evaluator.py:28-268 | at the shipped depth limit the old configuration is seen up to 24 parent steps for direct grants and 23 for group grants |
| FileNamespace.EvaluatorIsExactOnNew | src/nexus/bricks/rebac/graph/bulk_evaluator.py:28-268 | the evaluator is exact for the new configuration at every limit of 3 or more |
| FileNamespace.FileKeysArePlain | alembic/versions/3e3663b4e99a_flatten_rebac_schema_for_performance.py:38-112 | checks of files meet no exclusion, whatever other namespaces hold |
| FileNamespace.CheckFiles | src/nexus/bricks/rebac/graph/bulk_evaluator.py:31-268 | a memoised batch of file checks is exact on the new configuration, and on the old lies between what is within 24 and 23 parent steps and what is granted |
| Inheritance.NearAncestor | alembic/versions/3e3663b4e99a_flatten_rebac_schema_for_performance.py:85-112 | an ancestor is reached in fewer steps than there are files, even on cyclic parent tuples |
| FileNamespace.EvaluatorIsExactAtLinearDepth | src/nexus/bricks/rebac/graph/bulk_evaluator.py:28-268 | the evaluator is exact for the old configuration at a limit of twice the number of files plus one |
| FileCache.KeptIsLongestFittingSuffix | src/nexus/cache/file_store.py:155-158 | eviction keeps the longest suffix of the recency order that fits the cap |
| FileCache.LastIsKept | src/nexus/cache/file_store.py:98-111 | an entry just put is not evicted for itself |
| FileCache.PutKeepsValid | src/nexus/cache/file_store.py:80-111 | a put keeps keys, order and byte total consistent and under the cap, and stores the entry when it fits |
| FileCache.MemoryFileCache.constructor | src/nexus/cache/file_store.py:33-50 | a new cache is empty and consistent |
| FileCache.MemoryFileCache.DiscardLocked | src/nexus/cache/file_store.py:150-153 | removes the key and its bytes and keeps the rest |
| FileCache.MemoryFileCache.Get | src/nexus/cache/file_store.py:59-75 | a hit needs an unexpired entry with the expected fingerprint or, without one, a time to live; a hit makes the key the most recent, an expired entry goes, and no other entry changes |
| FileCache.MemoryFileCache.Put | src/nexus/cache/file_store.py:80-111 | the new state is that of a put; oversized content only removes the old entry |
| FileCache.MemoryFileCache.EvictUntilUnderCap | src/nexus/cache/file_store.py:155-158 | the loop leaves exactly the kept suffix and its total |
| FileCache.MemoryFileCache.Invalidate | src/nexus/cache/file_store.py:122-127 | removes the key only |
| FileCache.CachedIsLastWrite | src/nexus/cache/file_store.py:59-127 | after any run, what is cached is what was last put and not invalidated since |
| FileCache.HitsAreFresh | src/nexus/cache/file_store.py:59-75 | after any run a hit returns the content last put under that key, unexpired, with the expected fingerprint or, when none is expected, with a time to live |
| FileCache.PutThenHit | src/nexus/cache/file_store.py:80-111 | in any later run that leaves the key alone and has not lost it, a put is a hit until it expires |
| FileCache.PutKeepsIff | src/nexus/cache/file_store.py:80-158 | a put keeps another key exactly when what stands after that key in the recency order, the new entry included, fits the cap together with it |
| FileCache.OrderIsRecency | src/nexus/cache/file_store.py:59-127 | after any run the keys stand in strictly increasing order of the last operation that put or hit them |
| FileCache.EarlierIsLessRecent | src/nexus/cache/file_store.py:59-127 | of two cached keys the earlier is the one last put or hit earlier, and conversely |
| FileCache.EvictsLeastRecent | src/nexus/cache/file_store.py:98-158 | after any run, a put evicts only keys used less recently than every other key it keeps |
| FileCache.PutLivesFor | src/nexus/cache/file_store.py:59-111 | a put that fits is a hit exactly until its time to live, taken as zero when negative, has passed, under its fingerprint or, if it has a time to live, without one |
| SingleFlight.FindLock | src/nexus/cache/file_store.py:139-148 | finds a lock of the key in the table, or there is none |
| SingleFlight.EvictDropsOldest | src/nexus/cache/file_store.py:160-176 | eviction drops unused locks oldest first, never one in use, and stops short of the end only when the target is met |
| SingleFlight.NewestSurvives | src/nexus/cache/file_store.py:160-176 | a new lock stays in the table while fewer locks than the bound are in use |
| SingleFlight.StepKeepsInv | benches/cache_hit_rate.py:94-102 | every step keeps: one lock per key in use, one fetcher per key, backend content everywhere, calls bounded by losses |
| SingleFlight.RunInv | benches/cache_hit_rate.py:61-106 | the invariant holds in every state of every run when the table has room |
| SingleFlight.ResultsAreBackendContent | benches/cache_hit_rate.py:86-106 | in every run, with or without room, every fetcher that returns, returns the backend's content |
| SingleFlight.MovesAreBounded | benches/cache_hit_rate.py:94-102 | all fetchers together take at most three steps each, however many entries are lost |
| SingleFlight.NoDeadlock | benches/cache_hit_rate.py:94-102 | while a fetcher has not returned, some fetcher can move |
| SingleFlight.ExactlyOneCall | benches/cache_hit_rate.py:86-106 | with room and no loss, all fetchers of a key cost one backend call |
| SingleFlight.OrphanLock | src/nexus/cache/file_store.py:139-176 | with the table full of locks in use, a new lock is dropped at once and its fetcher goes ahead |
| SingleFlight.DoubleFetch | src/nexus/cache/file_store.py:139-176 | without room there is a run with two backend calls for one key and nothing lost |
| SingleFlight.SingleFlightIffRoomy | src/nexus/cache/file_store.py:139-231 | calls for a key never exceed one more than its losses, in every run, if and only if each shared key sees fewer other keys than the table holds locks |
| SingleFlight.PutIsFinish | src/nexus/cache/file_store.py:80-111 | the put of a fetcher on the real cache is a step of the protocol, whatever it evicts |
| SingleFlight.OtherOpsAreRemovals | src/nexus/cache/file_store.py:59-127 | lookups and invalidations on the real cache change nothing or are a loss of the key |
| SearchIndex.StepKeepsConsistent | alembic/versions/25980632a418_add_sqlite_search_fts5.py:39-77 | on a consistent index a statement that does not update or delete an unindexed row never raises, takes out only postings that are there, and keeps postings and totals right |
| SearchIndex.SparingRunGoesThrough | alembic/versions/25980632a418_add_sqlite_search_fts5.py:39-77 | so every run of such statements goes through and stays consistent |
| SearchIndex.RunBacksItsDeletes | alembic/versions/25980632a418_add_sqlite_search_fts5.py:39-77 | and every delete of it subtracts only postings that are present |
| SearchIndex.RunWritesRows | alembic/versions/25980632a418_add_sqlite_search_fts5.py:39-77 | after any run that goes through, each row is there or not, and with which text, as its own inserts, updates and deletes say in turn |
| SearchIndex.OldRowRaises | alembic/versions/25980632a418_add_sqlite_search_fts5.py:39-48 | right after the migration, updating or deleting any row that was there raises |
| SearchIndex.UsableIffOldRowsSpared | alembic/versions/25980632a418_add_sqlite_search_fts5.py:39-77 | after a run that went through, work on the rows the index has taken in can never raise if and only if the run updated and deleted none of the rows from before |
| SearchIndex.BackedIffHoldersSpared | alembic/versions/25980632a418_add_sqlite_search_fts5.py:39-77 | all deletes of a run subtract only what is present if and only if it updates and deletes no row from before that holds a token |
| SearchIndex.NeverRaisesIffEmpty | alembic/versions/25980632a418_add_sqlite_search_fts5.py:39-77 | no run ever raises if and only if the migration found an empty table |
| SearchIndex.SearchFindsWhatWasWritten | alembic/versions/25980632a418_add_sqlite_search_fts5.py:39-77 | after a run whose deletes are all backed, a search returns exactly the rows whose text, as the statements alone determine it, holds every term, other than those from before that hold a token |
| SearchIndex.CompleteIffNothingToIndex | alembic/versions/25980632a418_add_sqlite_search_fts5.py:39-77 | index search equals a full scan after every run that goes through if and only if no row present at the migration holds a token |
| SearchIndex.ChunkTable.Insert | alembic/versions/25980632a418_add_sqlite_search_fts5.py:49-57 | the insert statement with its trigger, on any table: the text of every row afterwards, when it raises, and that it keeps a consistent index consistent unless it touches an unindexed row |
| SearchIndex.ChunkTable.Delete | alembic/versions/25980632a418_add_sqlite_search_fts5.py:58-66 | the delete statement with its trigger, on any table: the text of every row afterwards, when it raises, and that it keeps a consistent index consistent unless it touches an unindexed row |
| SearchIndex.ChunkTable.Update | alembic/versions/25980632a418_add_sqlite_search_fts5.py:67-77 | the update statement with its trigger, on any table: the text of every row afterwards, when it raises, and that it keeps a consistent index consistent unless it touches an unindexed row |
| TestRedundancy.JaccardRange | scripts/find_redundant_tests.py:53-60 | similarity lies between 0 and 1 |
| TestRedundancy.JaccardTriangle | scripts/find_redundant_tests.py:53-60 | one minus similarity satisfies the triangle inequality for all finite sets |
| TestRedundancy.JaccardIff | scripts/find_redundant_tests.py:53-60 | for every t, similarity is at least t exactly when at most 1 - t of all their lines are covered by only one of the two |
| TestRedundancy.SubsetRatioIff | scripts/find_redundant_tests.py:63-67 | for every t, the ratio is at least t exactly when at most 1 - t of the lines are missing |
| TestRedundancy.SimilarityChains | scripts/find_redundant_tests.py:70-103 | two pairs at threshold t that share a test force at least 2t - 1 on the outer pair |
| TestRedundancy.SimilarPairsAre | scripts/find_redundant_tests.py:82-100 | the listed pairs are exactly those whose unshared lines are at most the rest of the threshold, with their names and counts |
| TestRedundancy.ContainmentsAre | scripts/find_redundant_tests.py:117-134 | the listed relationships are exactly the strictly smaller tests with those that miss at most the rest of the threshold of their lines, with their names and counts |
| TestRedundancy.ListAll | scripts/find_redundant_tests.py:82-134 | the double loops list what their conditions relate, in list order |
| TestRedundancy.ListingInOrder | scripts/find_redundant_tests.py:82-134 | findings come in the order of the first test and then of the second, each pair of places once |
| TestRedundancy.FindRedundantPairs | scripts/find_redundant_tests.py:70-103 | every reported pair is of two substantial tests similar at the threshold; the report is descending with ties in listing order, as long as the cut of all such pairs, and no pair left out outranks one in it |
| TestRedundancy.FindSubsetTests | scripts/find_redundant_tests.py:106-137 | the same for containments; and deleting just one reported test loses at most 1 - threshold of its lines, for every threshold |
| TestRedundancy.SortIsDescending | scripts/find_redundant_tests.py:102-137 | reports are in descending order |
| TestRedundancy.SortIsStable | scripts/find_redundant_tests.py:102-137 | findings with equal figures stay in listing order |
| TestRedundancy.SimilarIsContained | scripts/find_redundant_tests.py:53-67 | a similar pair of unequal sizes is a containment at the same threshold |
| TestRedundancy.PairsAreContainments | scripts/find_redundant_tests.py:70-137 | every listed pair of unequal sizes is listed as a containment, before truncation |
| TestRedundancy.DeletingOneLoses | scripts/find_redundant_tests.py:106-137 | at any threshold t, deleting one flagged test loses at most 1 - t of its lines |
| TestRedundancy.SurvivorCovers | scripts/find_redundant_tests.py:106-137 | from any test, strictly larger supersets lead to one that is not flagged |
| TestRedundancy.PruningKeepsCoverage | scripts/find_redundant_tests.py:106-137 | at threshold 1.0, deleting all flagged tests at once keeps the covered lines, for any part of the findings |
| TestRedundancy.PruneByReport | scripts/find_redundant_tests.py:198 | so does deleting what the truncated report flags |
| Grep.ScanLines | benchmarks/grep_trigram.py:217-240 | one file's matches up to the limit, and whether it was reached |
| Grep.ScanFiles | benchmarks/grep_trigram.py:217-240 | file after file, unreadable ones skipped: the first matches up to the limit |
| Grep.AllMatchesAre | benchmarks/grep_trigram.py:217-240 | the matches are exactly the lines of the given readable files in which the pattern finds its text, numbered from one |
| Grep.MatchesComeInOrder | benchmarks/grep_trigram.py:217-240 | files come in path order, and within a file line numbers strictly increase |
| Grep.PythonScan | benchmarks/grep_trigram.py:217-240 | the first max(1, limit) matches of all files, their lines stripped: every result is a match, and below the limit every match is there |
| Grep.ReadBatch | benchmarks/grep_trigram.py:248-314 | the batch dictionary has the matches of the batch's distinct paths |
| Grep.FacadeGrep | benchmarks/grep_trigram.py:248-314 | the first matches up to the limit of the batch-wise distinct paths, for every mix of bulk answers and fallbacks: every result is a match, and below the limit every match is there |
| Grep.BatchedAgreesWithSequential | benchmarks/grep_trigram.py:217-314 | on distinct paths both scans return the same list, up to the stripping of lines, if and only if the limit is at least one or nothing matches |
| Grep.NarrowingIsLossless | benchmarks/grep_trigram.py:322-348 | keeping only candidates leaves the matches unchanged if and only if every matching file is a candidate |
| Grep.FacadeTrigram | benchmarks/grep_trigram.py:322-348 | the batched scan of the paths that are candidates, or of all without an index answer |
| Grep.TrigramAgrees | benchmarks/grep_trigram.py:322-348 | on distinct paths the two scans agree for every limit if and only if the candidates include every matching file |
| Metadata.InternIsSound | scripts/gen_metadata.py:527-556 | interning keeps the two maps inverse, old ids keep their meaning, and the id resolves to the string at any later time |
| Metadata.InternPool.constructor | scripts/gen_metadata.py:527-529 | the pool starts empty |
| Metadata.InternPool.Intern | scripts/gen_metadata.py:532-541 | null gives -1 and changes nothing, a known string its id, a new one the next id |
| Metadata.InternPool.Clear | scripts/gen_metadata.py:595-600 | empties the pool |
| Metadata.ToCompactExtends | scripts/gen_metadata.py:465-496 | building a compact record only extends the pool |
| Metadata.RestoreAfterToCompact | scripts/gen_metadata.py:450-556 | each field of a compact record reads back as expected in every later pool |
| Metadata.ToCompactHolds | scripts/gen_metadata.py:465-478 | a compact record holds, at its own place, the pool id of each interned text or -1, each printed timestamp, and copies of the rest |
| Metadata.CompactRoundTrip | scripts/gen_metadata.py:450-556 | for any field list, expansion at any later time gives the original on stored fields and the default on others, and fails exactly on a null required field or a missing default |
| Metadata.RepositoryTablesAreOk | scripts/gen_metadata.py:71-129 | the repository's tables give no two fields the same place |
| Metadata.RepositoryRoundTrip | scripts/gen_metadata.py:71-129 | of the message's fields all come back but the time to live, which comes back as zero; a record without a path does not |
| Metadata.WireRoundTrip | scripts/gen_metadata.py:604-683 | one field through the mapper: itself, or null for an empty nullable string; idempotent |
| Metadata.WireHolds | scripts/gen_metadata.py:630-652 | on the wire a null is the empty string, a moment is printed, and everything else is unchanged |
| Metadata.MapperRoundTrip | scripts/gen_metadata.py:604-683 | for any field list, from_proto after to_proto is the identity exactly on fields that are not empty nullable strings, and to_proto fails exactly on an undeclared enum number |
| GroupClosure.EitherOrderAgrees | alembic/versions/rename_rebac_group_closure_tenant_to_zone.py:66-138 | either order of the two migrations ends in the same columns, rows, key and indexes, or raises in both, which is exactly when two rows agree on the key |
| GroupClosure.OriginalTableMigrates | alembic/versions/c7d9a0f4b8e2_repair_edge_permission_schema_drift.py:338-347 | on the table as created neither order raises |
| GroupClosure.RenameFirst | alembic/versions/rename_rebac_group_closure_tenant_to_zone.py:66-138 | the rename carries tenant values, key and indexes over to the zone column |
| GroupClosure.RepairFirst | alembic/versions/c7d9a0f4b8e2_repair_edge_permission_schema_drift.py:210-298 | the repair on the unrenamed table, and when it raises |
| GroupClosure.WithZoneIsZoned | alembic/versions/c7d9a0f4b8e2_repair_edge_permission_schema_drift.py:30-55 | the added zone column holds the tenant's values |
| GroupClosure.RenameOfRepaired | alembic/versions/rename_rebac_group_closure_tenant_to_zone.py:79-110 | the drop-old path ends in the same table |
| GroupClosure.RerunIsNoop | alembic/versions/rename_rebac_group_closure_tenant_to_zone.py:66-72 | running either migration again changes nothing |
| GroupClosure.RepairKeepsRows | alembic/versions/c7d9a0f4b8e2_repair_edge_permission_schema_drift.py:30-55 | on any table the repair gives each row its own zone, else its tenant, else root, and changes no other column |
| GroupClosure.RepairSetsShape | alembic/versions/c7d9a0f4b8e2_repair_edge_permission_schema_drift.py:210-298 | on any table with the other key columns it sets the five-column key and the two zone-led indexes and keeps the rest; otherwise it only adds the zone column |
| GroupClosure.RenameKeepsRows | alembic/versions/rename_rebac_group_closure_tenant_to_zone.py:66-138 | on any table the rename takes the tenant out of each row, keeping a zone that is there and else moving the tenant's value |
| GroupClosure.ClosureTable.Rename | alembic/versions/rename_rebac_group_closure_tenant_to_zone.py:66-138 | the statements in order amount to the rename |
| GroupClosure.ClosureTable.Repair | alembic/versions/c7d9a0f4b8e2_repair_edge_permission_schema_drift.py:210-298 | the statements in order amount to the repair, or raise |
| PosixBackfill.ApplyBatch | scripts/backfill_posix_uid.py:150-158 | a batch sets only owners of pending files, and counts its rows |
| PosixBackfill.Backfill | scripts/backfill_posix_uid.py:123-161 | for every batch size of at least one the loop ends with the effect of the single UPDATE: each file that has owner tuples, has no owner and is not deleted gets one of its owners, and nothing else changes, so deleted and already owned files do not; the count is of the rows applied, each an owner of such a file and at least one for each |
| PosixBackfill.FinishedIsBackfill | scripts/backfill_posix_uid.py:106-161 | a partial backfill with nothing pending is a whole one |
| PosixBackfill.BackfillIsIdempotent | alembic/versions/add_posix_uid_to_file_paths.py:53-88 | a second backfill changes nothing |
| PosixBackfill.BackfillIsDetermined | scripts/backfill_posix_uid.py:106-161 | with one owner a file all forms give the same table |
| PosixBackfill.BackfilledOwnerMayExecute | alembic/versions/add_posix_uid_to_file_paths.py:53-88 | if the owner tuples of a file name users unconditionally, whoever the backfill makes its owner may execute it under both ReBAC configurations |
| PosixBackfill.OwnerPathIsSoundIff | alembic/versions/add_posix_uid_to_file_paths.py:53-88 | whoever the backfill may make owner of a file may execute it if and only if the user named by each owner tuple of its path is permitted, read off the tuples for either configuration |
| PosixBackfill.GroupOwnerIsUnsound | scripts/backfill_posix_uid.py:106-118 | a file owned by a group gets the group's id as owner, and the user of that id may not execute it |
| ApiKeyZones.UpgradeIsAllOrNothing | alembic/versions/eba93656daab_add_api_key_zones_junction_table_for_.py:38-101 | it raises before the table exists exactly on a live key of an unknown zone, and otherwise after creating it exactly on a live key without a zone; when it goes through, the junction holds exactly the zone of each live key, all of them existing, and the later assertion passes; the root zone is seeded in every case |
| ApiKeyZones.AssertionIsTheCheck | alembic/versions/04188c0bbb28_assert_api_key_junction_populated_for_3871.py:47-75 | with the junction table in place, the assertion raises if and only if the key check calls some live key missing |
| ApiKeyZones.CheckFindsRow | scripts/check_api_key.py:58-83 | the check of a hash says exists exactly when the row that has it is not revoked, has the junction row of its own zone if any, and has some junction row or is an admin's |
| ApiKeyZones.RegisterExistingKeeps | scripts/create_admin_key.py:89-112 | registering a known key keeps every live key existing, is idempotent, and the key then exists if and only if it was not revoked |
| ApiKeyZones.RegisterNewKeeps | scripts/create_admin_key.py:113-142 | registering a new key keeps every live key existing, the key exists, and registering it again changes nothing |
| ApiKeyZones.KeyStore.CreateJunction | alembic/versions/eba93656daab_add_api_key_zones_junction_table_for_.py:38-101 | seed, preflight, create and backfill amount to the migration |
| ApiKeyZones.KeyStore.RegisterCustomKey | scripts/create_admin_key.py:84-142 | the branch amounts to one of the two registrations, or fails, exactly on a named zone that does not exist, and changes nothing |
| WorkspacePath.DowngradeRestores | alembic/versions/b98c750d8d1a_workspace_snapshots_use_workspace_path.py:82-98 | decoding an encoded path gives tenant and agent back if and only if neither contains a slash, for all strings and a null tenant |
| WorkspacePath.UpgradeRestores | alembic/versions/b98c750d8d1a_workspace_snapshots_use_workspace_path.py:46-98 | encoding a decoded path gives it back if and only if it lies under the root with at most three slashes |
| WorkspacePath.PathsAreUnique | alembic/versions/b98c750d8d1a_workspace_snapshots_use_workspace_path.py:46-52 | owners without slashes never share a path |
| WorkspacePath.WorkspaceRoundTrips | alembic/versions/b98c750d8d1a_workspace_snapshots_use_workspace_path.py:46-98 | both round trips for the repository's root |
| OperationLog.BackfillNumbers | alembic/versions/add_sequence_number_and_dlq.py:36-60 | either dialect's backfill is a bijection onto 1..n |
| OperationLog.NumbersFollowOrder | alembic/versions/add_sequence_number_and_dlq.py:36-60 | PostgreSQL's numbers follow creation time and then primary key, SQLite's the row id |
| OperationLog.DialectsAgree | alembic/versions/add_sequence_number_and_dlq.py:36-60 | the two dialects number alike if and only if row ids follow creation time and id |
| OperationLog.DeletionsAgree | alembic/versions/b8d2f1a3e567_add_unique_constraint_sequence_number.py:35-71 | the window-function, least-id and self-join deletions keep the same rows: all without a key and exactly the least of each key |
| OperationLog.KeepsFirst | alembic/versions/b8d2f1a3e567_add_unique_constraint_sequence_number.py:35-71 | what stays of each key is the row with the smallest primary key or, by row id, the smallest row id |
| OperationLog.UntouchedIffNoDuplicates | alembic/versions/tiger_resource_map_remove_tenant.py:46-54 | a deletion leaves the table alone if and only if no key repeats |
| OperationLog.DeletionIsIdempotent | alembic/versions/b8d2f1a3e567_add_unique_constraint_sequence_number.py:35-71 | deleting again removes nothing |
| OperationLog.BackfilledHasNoDuplicates | alembic/versions/b8d2f1a3e567_add_unique_constraint_sequence_number.py:35-71 | after the backfill the deletion removes nothing |
| OperationLog.LogTable.AddSequenceNumbers | alembic/versions/add_sequence_number_and_dlq.py:36-60 | the rows stay the same but for their numbers, which are 1..n in the dialect's order without repeats |
| OperationLog.LogTable.RemoveDuplicates | alembic/versions/b8d2f1a3e567_add_unique_constraint_sequence_number.py:35-71 | of each key exactly the least row is left, and all rows without a key |
| RpcNames.MethodToClassName | scripts/generate_rpc_params.py:346-358 | the loop builds the class name |
| RpcNames.NameOfTwo | scripts/generate_rpc_params.py:346-358 | a name of two parts becomes their two names and "Params" |
| RpcNames.ClassNamesEqualIff | scripts/generate_rpc_params.py:335-358 | names whose parts start with a lowercase letter and hold lowercase letters and digits get equal class names if and only if they are equal once acronyms are written out in parts, for every readable table |
| RpcNames.NamesAreUnique | scripts/generate_rpc_params.py:335-358 | so those whose parts have two or more characters share a class name only if equal, for every table whose entries start apart |
| RpcNames.RepositoryTableIsClear | scripts/generate_rpc_params.py:335-343 | the acronym table is such a table, and how its entries are written out |
| RpcNames.ShortPartsCollide | scripts/generate_rpc_params.py:335-358 | with a one-letter part two names can share a class name |

## Left out

- What an unranked set of exclusions means: it may have no meaning or several, and nothing is said of it but the self-exclusion.
- Usersets as subjects of a direct match beyond the plain case, attribute conditions and tuple expiry: conditioned tuples never match, as in the in-memory evaluator; the database traversal is not modelled.
- The Rust evaluator, the ReBAC manager, and the closure and bitmap caches behind it.
- FileNamespace theorems take parent tuples between files, and `member` as a base relation of groups.
- `invalidate_path` of the cache, and its thread lock: methods run one at a time.
- SingleFlight over-approximates who wakes next: an `asyncio.Lock` wakes waiters in order, the model in any order; cache losses may happen at any step.
- SearchIndex keeps row ids stable: renumbering by VACUUM and `INSERT OR REPLACE` are not modelled, nor is ranking. Of a delete that is not backed only its effect on the totals is relied on.
- Loading of coverage files and printing of reports; `round` is any function, and sort order is by rounded values as in the code.
- Grep shares one line-splitting function between the forms, so a pattern that can match a line's newline is not told apart, and the bulk matcher is assumed to answer in batch order.
- Metadata leaves out integer ranges and protobuf type errors, the JSON and SQL mappers, enum prefix stripping, and the generated source text itself.
- GroupClosure is PostgreSQL only, and leaves out server defaults, foreign keys and lock behaviour.
- The dry-run and statistics output of the backfill script.
- ApiKeyZones leaves out permissions, grant times and expiry of keys, the generated-key branch, and rollback by the database after an exception.
- OperationLog.LogTable.AddSequenceNumbers: primary keys are compared as numbers that stand for their rank in the database's collation.
- RpcNames covers ASCII; the generated parameter classes themselves are left out.
- Schema-only and merge migrations, network, process and command-line code.
