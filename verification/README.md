# Verified model of the obj document database

A Dafny model of the parts of obj that are hardest to get right, with proofs. obj is an embedded
document database: one paged file with a write-ahead log, a B+tree per collection and per index, and
a catalog tree over them. `dafny verify dfyconfig.toml` checks everything.

What is modelled, file by file:

- `byte_order.dfy`, `ordered_map.dfy`, `outcomes.dfy`: byte strings under lexicographic order, the
  B+tree seen through its contract (a finite map whose scans are sorted), result types.
- `index_key.dfy`, `index_extract.dfy`: the order-preserving field encoding, and the keys a document
  contributes to an index.
- `index_maint.dfy`, `collection.dfy`, `agreement.dfy`, `index_catalog.dfy`: index maintenance on writes,
  the write handle, agreement of the indexes with the primary tree, the index roster.
- `steps.dfy`, `runs.dfy`, `durable_runs.dfy`: the operations of a transaction, failing ones included; whole
  runs of transactions with catalog row, cached descriptor and flush; the same on the pager's pages.
- `write_outcomes.dfy`, `roster_outcomes.dfy`: when writes and roster operations succeed, and with which error
  they fail otherwise.
- `index_bound.dfy`, `index_read.dfy`, `range_rows.dfy`, `index_lookup.dfy`, `query.dfy`, `query_meaning.dfy`,
  `fetch_meaning.dfy`, `streams.dfy`: bound widening, range scans, lookups, query terminals, what a query means
  in field values and by positions in its source, and the iterators that stream in batches of 256.
- `page_walk.dfy`, `page_levels.dfy`, `freelist_walk.dfy`, `page_accounting.dfy`, `cross_check.dfy`,
  `integrity_report.dfy`, `integrity.dfy`: the integrity check, on arbitrary page graphs, what it is to report of
  damaged files, and why the states of the index engine pass it.
- `write_gate.dfy`, `transactions.dfy`, `write_txn.dfy`, `catalog_cache.dfy`: the write gate with its
  backoff, write and read transactions of one process as interleaved steps, the transaction object,
  and the catalog cached in memory.
- `catalog_rows.dfy`, `error_ring.dfy`, `backup.dfy`: the catalog's key space and ids, the error ring
  of the C interface, hot backup.

Code that updates state in place is a class whose methods are proved equal to functions on values;
the properties are lemmas about those functions. The lemmas that the others build up to are
`Runs.RunGoodExactly`, `Runs.RunIntactExactly`, `Runs.CommitIsSequential`, `Runs.InsertMeetsOccupiedExactly`,
`DurableRuns.PagesHoldTheRun`, `WriteOutcomes.CallsSucceedExactly`, `RosterOutcomes.ReconcileExactly`,
`QueryMeaning.FetchByValue`, `FetchMeaning.FetchAnswers`, `Query.CountIsFetchedLength`,
`Streams.StreamIndexRange`, `Integrity.IntegrityCheck`, `Integrity.PagesCheckedTells`,
`CrossCheck.RunsPassCrossCheck`, `Transactions.RunKeepsInv`, `CatalogCache.CacheIsCommittedExactly`,
`ErrorRing.RunKeeps` and `CatalogRows.RunKeeps`.

A few terms. An index is *sound* when each entry names a stored document that has the entry's key,
*complete* when each such key has its entry, and *exact* when it is both and every stored document can
be indexed. *Roster operations* are declarations, drops and reconciliations of indexes. A *descent* is the
sequence of child positions taken from a tree's root.

## Where the code and its documentation part

The model follows the code. These places are shown false as documented, with an input and, where the
code does meet the statement sometimes, exactly when:

- `crates/obj-core/src/index/key.rs:5-12` says encodings order as the values do. Byte strings are
  length-prefixed, so they order by length first: `IndexKey.BlobNaturalOrder`, `IndexKey.BlobCounterexample`.
- `crates/obj-core/src/index/extract.rs:69-73` lists a type mismatch for a Composite field that is a map, and an
  invalid argument for an Each sequence that is too long. The first is reported as an invalid argument and the
  second under an error of its own: `IndexExtract.CompositeKey`, `IndexExtract.EachKeys`.
- `crates/obj-core/src/pager/mod.rs:1515-1528` says a checkpoint waits for readers that still need frames.
  Log sequence numbers restart at 1 with every WAL reset (`crates/obj-core/src/wal/mod.rs:551-562`) while a
  reader keeps the number it pinned, so a reader that outlives one checkpoint is passed over by the next,
  and reads pages committed after it began: `Transactions.SecondCheckpointBreaksIsolation`. Isolation holds up to
  the second reset after the reader began (`Transactions.RunKeepsInv`), and over a whole run exactly when
  `Transactions.IsolationExactly` says.
- `crates/obj-core/src/integrity.rs:116-124` says levels must decrease by one from parent to child. The walker
  checks only that leaves have level 0 and internal nodes do not (`crates/obj-core/src/integrity.rs:389-405`):
  `PageLevels.UnevenTreePasses`. Positive levels do not matter to its verdict at all
  (`PageLevels.LevelsDoNotMatter`); they step by one exactly when `PageLevels.StepsByOneExactly` says, and can
  be made to exactly when `PageLevels.LevelsCanStepExactly` says. Nor are key order and level ever reported
  under their names, as pages that offend do not decode: `PageLevels.OrderIsReportedAsChecksum`.
- `crates/obj-core/src/integrity.rs:163-169` offers `pages_checked` to tell pages that were not reached. Those
  are orphans anyway; a clean report does not tell that trees are disjoint (`Integrity.SharedTreePasses`), and
  the count tells exactly that: `Integrity.PagesCheckedTells`.
- `crates/obj-rs/src/txn.rs:730-742` says reconciling makes each index Active before later writes, and
  `crates/obj-core/src/catalog.rs:632-640` that a dropped index keeps its id from being reused. Roster operations
  change the catalog row only; the commit overwrites the row with the cached descriptor of a transaction that has
  loaded it before, by a document write or by `put_schema`: `Runs.LostReconciliation`,
  `Runs.PutSchemaLosesReconciliation`, `Runs.LostDropRevives`, `Runs.LostIdIsIssuedAgain`. They survive exactly when
  `Runs.RosterChangeSurvivesExactly` says.
- `crates/obj-rs/src/db.rs:372-377` says a write never sees a catalog whose cursor disagrees with the file.
  The gate is released before the cached catalog is re-derived, a failing commit does not re-derive it, and the
  poison flag is cleared without the gate, after a re-derivation that may be out of date by then:
  `CatalogCache.RaceStartsOnRolledBackCatalog`, `CatalogCache.FailedCommitStartsOnLostCatalog`,
  `CatalogCache.LateClearHidesStaleCatalog`. The cache is right exactly when `CatalogCache.CacheIsCommittedExactly`
  says, and a wrong one known to be exactly when `CatalogCache.RunExplainedExactly` says. For one thread without
  failing commits it is always right: `CatalogCache.AloneAlwaysFresh`.
- `crates/obj-core/src/platform/mod.rs:187-190` guarantees a backup destination is never overwritten. It is not,
  but one that appears after the check for it makes the creation fail, and the clean-up removes it. What is
  found by the check is left alone: `Backup.BackupTo`.
- `crates/obj-rs/src/query.rs:459-480` says count gives the number fetch would return. It does except as stated
  in `Query.CountIsFetchedLength`: an unfiltered Each range over the distinct-id cap, and a limit of 0 on a source
  that cannot be opened, where an unsorted fetch returns nothing without looking.
- The attempt cap of the write gate cannot be reached when timeout + 64 saturates the counter:
  `WriteGate.EndsOnEveryClock`.

Atomicity is the transaction's, not the single call's (`crates/obj-rs/src/txn.rs:640-642`). The runs here take
closures as the engine does: one that handles an error may go on and commit what was staged. What a run then
keeps is stated with the exact condition on the operations that failed. The comment at
`crates/obj-core/src/pager/mod.rs:1810-1817` explains saving the WAL view by `free_page` removing entries from
it; `free_page` stages the freed page like any other write (`crates/obj-core/src/pager/mod.rs:1293-1322`), and
so does the model.

## Model

| member | source | states |
|---|---|---|
| ByteOrder.LessDiverging | crates/obj-core/src/index/key.rs:1-30 | two byte strings that part before either ends keep their order whatever is appended: why an id suffix cannot disturb the order of self-delimiting keys |
| ByteOrder.ToBeOrder | crates/obj-core/src/index/key.rs:278-306 | fixed-width big-endian encoding is an order isomorphism |
| OrderedMap.RangeUnique | crates/obj-core/src/btree/range.rs:102-172 | the ascending listing of the entries between two bounds is unique, so it defines a range scan |
| OrderedMap.RangeResume | crates/obj-rs/src/collection.rs:2144-2157 | restarting a scan strictly after its n-th key yields its remainder: the resumption step of every chunked iterator |
| OrderedMap.BTree.Insert | crates/obj-core/src/btree/insert.rs:99-160 | an occupied key is an error and changes nothing; otherwise exactly that entry is added |
| OrderedMap.BTree.Delete | crates/obj-core/src/btree/delete.rs:75-110 | removes exactly the key and tells whether it was there |
| IndexKey.EncOrder | crates/obj-core/src/index/key.rs:226-349 | for all encodable values, byte order of encodings is the order by type, then by value (for byte strings by length, then content) |
| IndexKey.EncPrefixFree | crates/obj-core/src/index/key.rs:226-349 | no encoding is a prefix of another value's encoding |
| IndexKey.BlobNaturalOrder | crates/obj-core/src/index/key.rs:5-12 | the documented order of byte strings holds on a set of lengths if and only if at most one of the lengths is not zero |
| IndexKey.BlobCounterexample | crates/obj-core/src/index/key.rs:338-349 | n > m > 0: m bytes FF are encoded before n zero bytes although they sort after them |
| IndexKey.EncodeKeyOrder | crates/obj-core/src/index/key.rs:160-247 | keys of one index: none is a prefix of another, and byte order is field-by-field value order |
| IndexExtract.KeysPrefixFree | crates/obj-core/src/index/extract.rs:74-168 | everything an index can be given as user key forms a prefix-free set |
| IndexExtract.OneKeyUnlessEach | crates/obj-core/src/index/extract.rs:90-144 | a document that can be indexed has exactly one key under every index that is not an Each |
| IndexExtract.ScalarKey | crates/obj-core/src/index/extract.rs:81-98 | Standard and Unique: the key is the encoding of the one field; a missing field and one that cannot be encoded are reported as such |
| IndexExtract.EachKeys | crates/obj-core/src/index/extract.rs:100-126 | Each: one key per element, the element's encoding, in the sequence's order; missing field, no sequence, more than 16,384 elements and an element that cannot be encoded each give their own error, in this order |
| IndexExtract.EachMember | crates/obj-core/src/index/extract.rs:100-126 | a document is filed under a key exactly when the field is such a sequence and one of its elements has that encoding |
| IndexExtract.CompositeKey | crates/obj-core/src/index/extract.rs:128-168 | Composite: the envelope tag and the encodings of the fields in path order |
| IndexKey.EncodeFieldsSnoc | crates/obj-core/src/index/key.rs:238-247 | the encodings of several fields follow one another |
| IndexExtract.MissingFieldIsReported | crates/obj-core/src/index/extract.rs:146-168 | the first path that names no field, or one an earlier path has taken, is the one reported |
| IndexExtract.YieldsExactly | crates/obj-core/src/index/extract.rs:81-168 | extraction succeeds if and only if every path finds its field and everything to be encoded can be |
| IndexExtract.TuplesAreValues | crates/obj-core/src/index/extract.rs:81-168 | the values indexed are, for Each, the elements and otherwise the fields in path order |
| IndexMaint.ApplyUniqueDiff | crates/obj-rs/src/index_maint.rs:159-193 | ends in the diff of first old and first new key; a violation leaves the tree untouched |
| IndexMaint.ApplyNonuniqueDiff | crates/obj-rs/src/index_maint.rs:212-240 | ends in tree minus (old keys not new) plus (new keys not old), with exactly that many deletions and insertions |
| IndexMaint.InsertNewKeys | crates/obj-rs/src/index_maint.rs:248-272 | the insert fast path adds each distinct composed key once, by as many insertions, and fails exactly if one is taken |
| IndexMaint.MaintainIndexFromKeys | crates/obj-rs/src/index_maint.rs:119-153 | dispatches on the kind and moves the descriptor to the new root only on success |
| IndexMaint.FirstFailure | crates/obj-rs/src/index_maint.rs:42-62 | the index a write stops at: every one before it accepts the write, it does not |
| Collection.Handle.ApplyDocChange | crates/obj-rs/src/index_maint.rs:42-117 | the loop over the descriptors takes every index before the first failure to its state after the write, leaves that one and the later ones as they were, and returns that failure |
| Collection.Handle.DoInsert | crates/obj-rs/src/collection.rs:332-386 | watermark, primary tree and every index after an insert, on every error path too |
| Collection.Handle.DoUpdate | crates/obj-rs/src/collection.rs:455-496 | whole state and outcome of an update, a missing document included |
| Collection.Handle.DoDelete | crates/obj-rs/src/collection.rs:498-535 | whole state and outcome of a delete, and whether the document was there |
| Collection.Handle.DoUpsert | crates/obj-rs/src/collection.rs:537-572 | whole state and outcome of an upsert; the watermark stays |
| Agreement.StripOfStorage | crates/obj-rs/src/collection.rs:1921-1932 | stripping the id suffix undoes filing under it |
| Agreement.AgreementIsEquality | crates/obj-rs/src/index_maint.rs:119-153 | no dangling entry and no missing entry together are equality of the index with the map derived from the primary tree |
| Agreement.OneWriteKeepsAgreement | crates/obj-rs/src/index_maint.rs:64-153 | a successful write keeps an index free of dangling entries, and complete if it was |
| Agreement.NeverKeyExists | crates/obj-rs/src/index_maint.rs:159-272 | from a consistent state index maintenance never meets an occupied key |
| Agreement.UniqueRejectsExactlyTaken | crates/obj-rs/src/index_maint.rs:159-193 | a Unique index rejects a document if and only if another document holds its key |
| Agreement.NoSharedUniqueKey | crates/obj-rs/src/index_maint.rs:159-193 | no two documents share a key of a complete Unique index |
| Agreement.DiffIsRefiling | crates/obj-rs/src/index_maint.rs:212-240 | from a consistent tree the diff equals deleting every old composed key and inserting every distinct new one |
| Steps.StepGoodExactly | crates/obj-rs/src/collection.rs:332-572 | after any operation, succeeding or failing, no Active index has a dangling entry if and only if the operation was harmless: indexes it does not get to file the document only under keys it still has |
| Steps.StepExactExactly | crates/obj-rs/src/collection.rs:332-572 | an exact index stays exact if and only if the operation gets to it or the two versions of the document have the same keys there |
| Steps.HarmlessByKeys | crates/obj-rs/src/index_maint.rs:42-117 | while all Active indexes are exact, harmless means: in every index from the failing one on, the old keys of the document are among the new |
| Steps.SuccessesAndInsertsAreHarmless | crates/obj-rs/src/collection.rs:332-386 | what succeeds is harmless, and so is an insert that fails |
| Steps.ViolationLeavesStagedDocument | crates/obj-rs/src/collection.rs:332-386 | a unique violation leaves the document staged, some Unique index without its entry, and two documents with one unique key |
| Steps.FreshIndexExactness | crates/obj-core/src/catalog.rs:518-551 | declaring does not backfill: a fresh index is exact if and only if no stored document has a key for it |
| Steps.KeyExistsExactly | crates/obj-rs/src/collection.rs:332-386 | from a consistent state a step fails on an occupied key if and only if it is an insert whose watermark points at a stored document |
| Steps.WatermarkKept | crates/obj-rs/src/collection.rs:537-572 | every operation keeps stored ids below the watermark, an upsert if and only if its id was below it already |
| Steps.UpsertAtWatermarkBlocksInsert | crates/obj-rs/src/collection.rs:537-572 | an upsert at the next id makes the following insert fail |
| Steps.CallsReport | crates/obj-rs/src/collection.rs:332-535 | an insert that succeeds returns the id at the watermark, which no document had; it runs out of ids exactly when the watermark is spent; an update reports a missing document exactly when there is none; a delete tells whether it was there |
| WriteOutcomes.MaintainedUnlessObjecting | crates/obj-rs/src/index_maint.rs:66-117 | a sound index accepts a write unless the stored or the new document cannot be indexed or, in a Unique index, the field moves to a value filed under another id; then it reports that |
| WriteOutcomes.WriteSucceedsExactly | crates/obj-rs/src/index_maint.rs:42-62 | from a consistent state a write succeeds if and only if no Active index objects; otherwise it reports the first objection in roster order. Dropped indexes have no say and are left as they are |
| WriteOutcomes.ObjectsUnlessFitting | crates/obj-rs/src/index_maint.rs:66-193 | with every Active index exact, an index objects to a document exactly when its fields do not fit or another document has the same value in a Unique field, and never to a deletion |
| WriteOutcomes.CallsSucceedExactly | crates/obj-rs/src/collection.rs:332-535 | exactly when insert, update and upsert succeed, in the documents' fields; delete always does and tells whether the document was there |
| WriteOutcomes.FirstMisfitReports | crates/obj-rs/src/collection.rs:332-535 | whichever call it is, the error is that of the first Active index the document does not fit: the extraction error, or the violation with the index name and the key |
| Runs.CommitIsSequential | crates/obj-rs/src/txn.rs:188-231 | what a transaction leaves in the row is what its operations leave when each is committed by itself, without the roster operations that come after one that goes through the cached descriptor |
| Runs.RosterChangeSurvivesExactly | crates/obj-rs/src/txn.rs:210-231 | a declaration, drop or reconciliation that changed the catalog row survives the commit, whatever follows it, if and only if no operation that loads the cached descriptor, document write or put_schema, precedes it in the transaction |
| Runs.LostReconciliation | crates/obj-rs/src/collection.rs:1552-1582 | a reconciliation after such an operation reports success, leaves no trace in the committed roster and is skipped ever after in this process |
| Runs.RosterSeenIsCommittedExactly | crates/obj-rs/src/collection.rs:81-93 | the roster a transaction sees in the end is the one it commits if and only if no roster operation changed the row once the descriptor was cached |
| Runs.PutSchemaLosesReconciliation | crates/obj-rs/src/txn.rs:337-352 | put_schema then reconcile commits the row as it was, with the version marked as reconciled; in the other order both take effect |
| Runs.LostDropRevives | crates/obj-core/src/catalog.rs:593-630 | a reconciliation after such an operation makes tombstones that the commit turns Active again |
| Runs.LostIdIsIssuedAgain | crates/obj-core/src/catalog.rs:849-859 | the id of an index that a lost reconciliation declared is issued a second time |
| Runs.RunGoodExactly | crates/obj-rs/src/txn.rs:640-642 | over every run of transactions, with failing operations handled and committed or rolled back as the closures decide: no Active index ever has a dangling entry if and only if each committed operation was harmless |
| Runs.RunIntactExactly | crates/obj-rs/src/txn.rs:640-642 | over every run an index exact at the start stays exact while Active if and only if no committed operation failed before or at it while changing the document's keys there; nothing is asked of the other indexes |
| Runs.PropagatingRunsAreHarmless | crates/obj-rs/src/db.rs:391-399 | where closures propagate every error both conditions hold |
| Runs.RunKeepsRoster | crates/obj-core/src/catalog.rs:518-676 | over every run the committed rosters only grow: positions, ids and specifications stay and no tombstone comes back |
| Runs.RunAgreement | crates/obj-rs/src/index_maint.rs:42-279 | such an index is at the end the map its primary tree calls for |
| Runs.RunFromEmptyAgreement | crates/obj-rs/src/index_maint.rs:42-279 | in particular every index declared while the collection was empty |
| Runs.RunKeepsUnique | crates/obj-rs/src/index_maint.rs:159-193 | over every such run no two documents share a key of the index if it is Unique |
| Runs.RunIsStoreRun | crates/obj-rs/src/collection.rs:332-572 | after any run the stored documents and the watermark are those of a plain map under all operations of the transactions that committed, the ones that failed in an index included |
| Runs.InsertMeetsOccupiedExactly | crates/obj-rs/src/collection.rs:332-386 | wherever an insert stands in a run, its id is the first watermark plus the inserts so far, and it is taken if and only if the last committed or own upsert or delete of that id is an upsert |
| Runs.InsertsStayFreshExactly | crates/obj-rs/src/collection.rs:537-572 | over a run no insert meets an occupied id if and only if none reaches an id that an upsert left, told from the operations and the first watermark alone |
| Runs.RunKeepsWatermarkExactly | crates/obj-rs/src/collection.rs:537-572 | over a run stored ids stay below the watermark, and the next insert fresh, if and only if no upsert has left a document at or above it |
| Runs.OpenTransaction.TakeOne | crates/obj-rs/src/collection.rs:81-93 | document writes work on the cached descriptor, loaded from the row by the first of them or by put_schema; roster operations on the row, whatever is cached; a version reconciled before is skipped |
| Runs.Connection.RunTransaction | crates/obj-rs/src/db.rs:367-416 | the closure's operations, with what each reported; a commit flushes the cached descriptor over the row and promotes the reconciled versions, a rollback leaves everything as it was |
| DurableRuns.PagesHoldTheRun | crates/obj-rs/src/db.rs:389-416 | given that a transaction at its commit has written the pages of its descriptor: in every interleaving of pager steps, whoever looks at the pages outside a transaction, at its begin or after its rollback finds the row that the run of the transactions ended so far arrives at |
| IndexCatalog.DeclareKeepsWellFormed | crates/obj-core/src/catalog.rs:518-570 | declaring keeps names distinct and ids strictly ascending and leaves earlier descriptors as they were |
| IndexCatalog.DropKeepsWellFormed | crates/obj-core/src/catalog.rs:647-676 | dropping only turns Active into a tombstone |
| IndexCatalog.ReconcileKeepsWellFormed | crates/obj-core/src/catalog.rs:593-630 | reconciling keeps ids and names, never revives a tombstone, never reuses an id |
| IndexCatalog.ReconcileResult | crates/obj-core/src/catalog.rs:593-630 | a successful reconciliation is idempotent and leaves Active exactly the spec names not tombstoned before |
| IndexCatalog.CatalogRow.DeclareIndex | crates/obj-core/src/catalog.rs:518-551 | roster and outcome of a declaration on every path |
| IndexCatalog.CatalogRow.ReconcileIndexes | crates/obj-core/src/catalog.rs:593-630 | declare every spec, then drop by name what no spec names: roster and outcome, error paths with the declarations staged before |
| IndexCatalog.MaxId | crates/obj-core/src/catalog.rs:849-859 | the largest index id ever handed out on the roster, tombstones included |
| RosterOutcomes.DeclareKnown | crates/obj-core/src/catalog.rs:556-575 | declaring a known name changes nothing and gives its id, or reports which of kind and key paths differs |
| RosterOutcomes.DeclareNew | crates/obj-core/src/catalog.rs:518-551 | declaring a new name fails if and only if the largest id is taken; otherwise the descriptor is appended, Active and empty, under the id after the largest |
| RosterOutcomes.DropExactly | crates/obj-core/src/catalog.rs:647-676 | a drop makes a tombstone of the index of that name and leaves the others; an unknown name is reported |
| RosterOutcomes.ReconcileExactly | crates/obj-core/src/catalog.rs:593-630 | a reconciliation succeeds if and only if every spec is valid, none contradicts the roster or another spec of the same name, and there are ids for the new names |
| IndexBound.WideningExact | crates/obj-rs/src/index_bound.rs:60-96 | for keys of which none is a proper prefix of the bound or conversely, the widened bounds select the key with its id if and only if the user key lies within the user's bounds, for all bound kinds and index kinds |
| IndexBound.WideningNeedsPrefixFreedom | crates/obj-rs/src/index_bound.rs:83-91 | without that the widened range is too wide |
| IndexBound.BoundValueApart | crates/obj-rs/src/collection.rs:1880-1909 | every bound value that is not a tuple of another length than the index has fields meets that condition against every key of the index |
| IndexBound.WidenedByValue | crates/obj-rs/src/collection.rs:1880-1909 | for every key and every bound that can be encoded, partial tuples, longer ones and other shapes included: the widened bounds place the tree key as the fields lie to the value, leading fields deciding |
| IndexBound.InsideGoesById | crates/obj-rs/src/index_bound.rs:60-96 | a bound that begins with the key lies above the tree key, as a longer tuple should, if and only if the id sorts before what the bound has more |
| IndexBound.SmallIdsSeparate | crates/obj-rs/src/collection.rs:1894-1909 | ids below 2^56 do, unless the first field the bound has more is Null |
| IndexRead.CollectIndexRange | crates/obj-rs/src/collection.rs:710-749 | the eager scan's rows, de-duplication and corrupt entries included |
| IndexRead.ActiveIndexExactly | crates/obj-rs/src/collection.rs:969-985 | an index is found by name if and only if one of that name is Active; the error names it |
| RangeRows.RangeDelivers | crates/obj-rs/src/collection.rs:715-749 | over any index, sound or not: one row for each entry within the widened bounds, in key order, passing over an id met before under an Each index; an entry that names no stored document gives an error row |
| IndexRead.ScanIsMatching | crates/obj-rs/src/collection.rs:1055-1099 | on an exact index an entry is scanned if and only if its document has its user key and the widened bounds select it |
| IndexRead.MatchingIsWithin | crates/obj-rs/src/index_bound.rs:60-96 | with bounds that cut no key in the middle these are the documents with a user key within the bounds |
| IndexRead.RangeAnswers | crates/obj-rs/src/collection.rs:710-749 | the rows are the matching pairs in key order, for an Each index one per document at the least of its keys within the bounds |
| IndexRead.IndexRangeMeaning | crates/obj-rs/src/collection.rs:710-749 | on an exact index no row is an error and each carries the stored document |
| IndexLookup.RangeByValue | crates/obj-rs/src/collection.rs:689-703 | with any bounds that can be encoded a range over an exact index delivers a document if and only if one of its indexed values lies between them in field order |
| IndexLookup.CollectNonuniqueEqual | crates/obj-rs/src/collection.rs:1018-1038 | the distinct ids of an equality scan, in scan order |
| IndexLookup.EqualIdsAreHolders | crates/obj-rs/src/collection.rs:1018-1038 | on an exact index these are the documents holding exactly that key, ascending and without repetition |
| IndexLookup.Lookup | crates/obj-rs/src/collection.rs:635-671 | result of a lookup on every path |
| IndexLookup.LookupMeaning | crates/obj-rs/src/collection.rs:635-671 | on an exact index a lookup returns the documents with that value, by id |
| IndexLookup.LookupFailsExactly | crates/obj-rs/src/collection.rs:635-662 | on an exact index a lookup fails if and only if the index is not Active, is a Composite, or the value cannot be encoded, with the error of the first of these |
| Query.DrainUnsorted | crates/obj-rs/src/query.rs:577-598 | the first limit matches, or the source's error when it comes first |
| Query.StableSortIsStable | crates/obj-rs/src/query.rs:607-638 | the sort is ascending and keeps equal keys in source order |
| Query.StableSortUnique | crates/obj-rs/src/query.rs:607-638 | those two properties determine the result, so any stable sort gives it |
| Query.DrainSorted | crates/obj-rs/src/query.rs:607-638 | outcome of the sorted fetch on every path: first bad key, cap, source error, result |
| Query.SortedFetchMeaning | crates/obj-rs/src/query.rs:607-638 | given encodable sort keys the buffer error is raised if and only if the matches exceed the cap; else the answer is the first limit documents of any arrangement of the key and document pairs that is stable |
| FetchMeaning.SortPositions | crates/obj-rs/src/query.rs:628 | the sort as a permutation of positions in which equal keys keep their order |
| FetchMeaning.FetchAnswers | crates/obj-rs/src/query.rs:577-638 | what a successful fetch returns, by positions in the source: matches only, in the order of the sort values (field order, or byte order of the caller's bytes) and of position where those do not decide; what a limit leaves out comes later |
| FetchMeaning.FetchFailsExactly | crates/obj-rs/src/query.rs:577-638 | exactly when a fetch fails and with which error: a sort value within the buffer bound (100,000 by default) that cannot be encoded, then more matches than the bound, then the source's first error; unsorted, that error only if the limit is not reached before it |
| FetchMeaning.FullScanRows | crates/obj-rs/src/query.rs:655-668 | a full scan delivers every stored document once, in the order of the ids |
| FetchMeaning.FirstAnswers | crates/obj-rs/src/query.rs:455-457 | first delivers the match that comes before all others and fails as fetching one document does |
| FetchMeaning.FilteredCountExactly | crates/obj-rs/src/query.rs:713-740 | a filtered count is the number of matches up to the limit, or the error of opening the source or of its first failing row |
| Query.FirstIsHead | crates/obj-rs/src/query.rs:455-457 | first delivers the head of the unlimited fetch |
| Query.CountDistinct | crates/obj-rs/src/collection.rs:1242-1273 | number of distinct ids, the cap error and the corruption error in the order met |
| Query.Count | crates/obj-rs/src/query.rs:530-571 | outcome of count on the fast and the slow path |
| Query.CountIsFetchedLength | crates/obj-rs/src/query.rs:530-727 | when fetch succeeds on a consistent state, count is the number fetched if and only if the source opens and an unfiltered Each range is within the distinct-id cap |
| QueryMeaning.FetchByValue | crates/obj-rs/src/query.rs:577-677 | on an exact index an unlimited, unsorted query fetches each stored document that passes the filters and has an indexed value between the bounds, once, and nothing else |
| QueryMeaning.AnswersDiffer | crates/obj-rs/src/collection.rs:710-749 | a range answer never names a document twice |
| Streams.RefillKeepsPending | crates/obj-rs/src/collection.rs:2035-2082 | staging a batch changes nothing about what is to be delivered and brings the end nearer, also when every entry was a repeat |
| Streams.IterIndexRange.Refill | crates/obj-rs/src/collection.rs:2035-2157 | buffer, resumption marker, seen ids and end flag after a refill |
| Streams.IterIndexRange.Next | crates/obj-rs/src/collection.rs:2162-2175 | delivers the next pending row, or nothing exactly when none is left |
| Streams.StreamIndexRange | crates/obj-rs/src/collection.rs:874-910 | consuming the stream ends and gives the rows of the eager scan in order |
| Streams.RefillKeepsUndelivered | crates/obj-rs/src/db.rs:1551-1600 | over a primary tree keyed by ids, staging a batch changes nothing about what is to be delivered, and only the end of the tree stages nothing |
| Streams.DrainBatch | crates/obj-rs/src/inspect.rs:484-541 | one batch of at most 256 rows, the last id among its keys and its size |
| Streams.IterAll.Next | crates/obj-rs/src/db.rs:1658-1671 | the next record and cursor, without a loop |
| Streams.StreamAll | crates/obj-rs/src/db.rs:1551-1671 | consuming the stream gives every stored document with its id, in the order of the ids |
| Streams.NextDumpDelivers | crates/obj-rs/src/inspect.rs:548-566 | one call to the dump stream takes one record off what the limit leaves |
| Streams.StreamDump | crates/obj-rs/src/inspect.rs:400-566 | consuming the dump gives the first records of the collection by id, as many as the limit, all of them for limit 0 |
| PageWalk.WalkBtree | crates/obj-core/src/integrity.rs:228-270 | on any page graph, cyclic ones included, the walk ends, visits only reachable pages and reports, under the tree's label, only faults that are there; unless a bound on depth or size cut it short it visited every reachable page and reported every fault: each bad page, and each page with a second way in. When it reports nothing the graph is a tree within the limits |
| PageWalk.TallyComplete | crates/obj-core/src/integrity.rs:228-270 | with nothing left to visit, all reachable pages were visited and every fault below the root is reported |
| PageWalk.GroundedIsFaulty | crates/obj-core/src/integrity.rs:300-335 | a page reported as met twice has two ways in: as the root, or as children of reachable pages |
| PageWalk.NoReportIffClean | crates/obj-core/src/integrity.rs:228-270 | no report and no error if and only if the pages form a clean tree |
| PageWalk.VisitKeeps | crates/obj-core/src/integrity.rs:310-330 | visiting a page and queueing its children keeps every descent covered and queued descents incomparable |
| PageWalk.ReadAndValidateNode | crates/obj-core/src/integrity.rs:338-405 | the failures one page contributes and whether its node is descended into |
| FreelistWalk.WalkFreelist | crates/obj-core/src/integrity.rs:420-471 | the pages seen are those the links lead to from the head, and the report is the one place where the list goes wrong, with the failure for what is wrong there; nothing is reported if and only if the list ends inside the file, one step a page |
| FreelistWalk.StopsOnce | crates/obj-core/src/integrity.rs:420-471 | a list goes wrong in at most one place |
| FreelistWalk.SeenIsOnList | crates/obj-core/src/integrity.rs:446-450 | following the links further leads to no page that was not seen |
| FreelistWalk.NoReturn | crates/obj-core/src/integrity.rs:446-449 | a list that comes back to a page it passed does not end |
| CrossCheck.CollectPrimaryIds | crates/obj-core/src/integrity.rs:604-633 | the ids met before a corrupt page ends the scan without a report |
| CrossCheck.CrossReferenceIndex | crates/obj-core/src/integrity.rs:518-572 | reports exactly the entries that name no primary id, each under the id it names or the zero id if it names none, and the corrupt page that ends the scan; collects the ids referenced |
| CrossCheck.MissesIsOrphan | crates/obj-core/src/integrity.rs:540-591 | the id in a report is the one at the end of the key, or the value of a Unique index |
| CrossCheck.CheckPrimaryToIndex | crates/obj-core/src/integrity.rs:641-669 | one report for exactly each primary id that an index other than an Each does not reference |
| CrossCheck.SoundEntriesPointHome | crates/obj-core/src/integrity.rs:579-591 | recovering the id from an entry undoes filing it, so every entry of a consistent index names a document |
| CrossCheck.SoundIndexReferences | crates/obj-core/src/integrity.rs:579-591 | a consistent index references exactly the documents it has entries for |
| CrossCheck.RunsPassCrossCheck | crates/obj-rs/src/integrity.rs:176-210 | after any run whose committed operations were harmless the stored collection passes: no orphan from any consistent start, no missing entry while every Active index was exact and spared and none was added |
| Integrity.IntegrityState.WalkOneCollection | crates/obj-rs/src/integrity.rs:176-210 | goes through the primary tree and every Active index tree of the collection and finds exactly the entries and ids that do not refer to each other; with its roots in the file it adds no failure if and only if the collection is clean |
| Integrity.IntegrityState.CheckCatalogPointers | crates/obj-core/src/integrity.rs:476-501 | adds a failure for exactly each of primary root and Active index roots that is outside the file, with the name and the page; none if and only if all lie in it |
| Integrity.IntegrityState.DetectOrphanPages | crates/obj-rs/src/integrity.rs:271-284 | adds OrphanPage for exactly the pages after the header and below the page count that were not reached |
| Integrity.IntegrityCheck | crates/obj-rs/src/integrity.rs:87-101 | on any database the check fails only where something cannot be read; its report is exactly what is wrong, unless a bound cut a tree walk short: then it is still justified, and complete but for the trees. Nothing is reported if and only if the database is clean; the pages checked are then the header and the sizes of all trees and of the freelist |
| IntegrityReport.ReportTells | crates/obj-rs/src/integrity.rs:87-101 | what the trees walked, the roots, the entries, the freelist and the pages not reached amount to together |
| IntegrityReport.ExplainTree | crates/obj-rs/src/integrity.rs:120-149 | walking one more tree keeps the report explained: nothing without a cause, no cause left out unless a walk was cut short |
| Integrity.UnreferencedByName | crates/obj-core/src/integrity.rs:641-669 | an id is reported missing exactly when no entry of the index names it |
| Integrity.CleanReportLinksBothWays | crates/obj-rs/src/integrity.rs:176-210 | after a clean check every entry of an Active index names a primary id and every primary id has an entry in each that is not an Each |
| Integrity.CleanTreeInFile | crates/obj-core/src/pager/mod.rs:1193-1201 | pages past the end being unreadable, a tree without a report keeps to the file, every child pointer included |
| Integrity.PagesCheckedTells | crates/obj-core/src/integrity.rs:163-169 | of a clean database pages_checked equals the page count if and only if the catalog tree, all primary and Active index trees and the freelist are pairwise disjoint |
| Integrity.SharedTreePasses | crates/obj-rs/src/integrity.rs:271-284 | two collections sharing a tree pass without a report, with more pages checked than there are |
| PageLevels.OrderIsReportedAsChecksum | crates/obj-core/src/btree/node.rs:817-870 | on pages the decoder accepts a walk never reports key order or level: what is out of order fails to decode and is reported as a bad checksum |
| PageLevels.LevelsDoNotMatter | crates/obj-core/src/integrity.rs:389-405 | other positive levels of internal nodes change neither the report of a page nor the verdict on the tree |
| PageLevels.StepsByOneExactly | crates/obj-core/src/integrity.rs:116-124 | levels step by one if and only if each is the root's less the depth; the leaves of a clean tree are then at one depth |
| PageLevels.LevelsCanStepExactly | crates/obj-core/src/integrity.rs:116-124 | a tree the walk passes can be given levels that step by one if and only if its leaves are all at one depth and its other nodes above |
| PageLevels.UnevenTreePasses | crates/obj-core/src/integrity.rs:389-405 | a tree with leaves at two depths and an internal root of level 5 over a leaf passes, whatever levels its internal nodes have |
| WriteGate.Acquire | crates/obj-core/src/txn.rs:532-566 | the loop reaches the phase of the iteration function, for any scheduling and clock |
| WriteGate.PollingState | crates/obj-core/src/txn.rs:532-566 | after n misses the loop has counted n attempts and waited min(2^k, 100) ms for each k < n |
| WriteGate.WinsExactly | crates/obj-core/src/txn.rs:543-557 | the gate is won at exactly the first attempt that succeeds, if neither the cap nor a clock reading ended the loop before |
| WriteGate.FreeGateIsTaken | crates/obj-core/src/txn.rs:550-557 | a free gate is taken at the first attempt, whatever the timeout |
| WriteGate.DeadlineExactly | crates/obj-core/src/txn.rs:558-562 | Busy on the deadline is reported at exactly the first failed attempt after which the clock shows the timeout as passed |
| WriteGate.CapExactly | crates/obj-core/src/txn.rs:544-549 | Busy on the cap is reported after exactly timeout + 64 attempts none of which ended the loop |
| WriteGate.AttemptsBounded | crates/obj-core/src/txn.rs:541-549 | at most timeout + 64 attempts on any clock, also a stopped one, while that sum stays below the largest count |
| WriteGate.EndsOnEveryClock | crates/obj-core/src/txn.rs:541-549 | the loop ends on every clock if and only if timeout + 64 is below the largest 64-bit count |
| WriteGate.ExactClockEnding | crates/obj-core/src/txn.rs:557-564 | on an exact clock the cap never ends the loop, Busy means the timeout has passed, and the total wait is below timeout + 100 ms |
| Transactions.RunKeepsInv | crates/obj-core/src/txn.rs:301-475 | in every interleaving: at most one guard, the gate set exactly while there is one, the committed state the fold of the committed transactions, and each live reader reading its begin state until the second WAL reset after it |
| Transactions.StepKeepsOneGuard | crates/obj-core/src/txn.rs:171-179 | every step keeps the gate equivalent to the existence of one guard |
| Transactions.RollBackRestores | crates/obj-core/src/txn.rs:434-475 | after rollback, drop or a failed commit every page and the header read as committed before |
| Transactions.CommitPublishes | crates/obj-core/src/pager/mod.rs:1344-1420 | a commit makes exactly what the transaction read the committed state |
| Transactions.ReadsOwnWrites | crates/obj-core/src/pager/mod.rs:1193-1320 | whatever other threads do in between, a transaction reads on each page what it last wrote there, or what was committed where it wrote nothing or took the write back; the header likewise |
| Transactions.CheckpointKeepsReader | crates/obj-core/src/pager/mod.rs:1548-1615 | a checkpoint leaves a reader of the current WAL generation its pages |
| Transactions.CheckpointDisturbsExactly | crates/obj-core/src/pager/mod.rs:1606-1615 | a checkpoint keeps what a reader reads if and only if it is deferred or folds in, outside the frozen view, only what the file already held |
| Transactions.IsolationExactly | crates/obj-core/src/pager/mod.rs:1548-1615 | a live reader reads its begin state all along a run if and only if each checkpoint of the run is deferred or folds in, outside the frozen view, only what the file already held |
| Transactions.SecondCheckpointBreaksIsolation | crates/obj-core/src/wal/mod.rs:551-562 | a concrete run in which a live reader sees a later commit after the second checkpoint |
| WriteTransaction.WriteTxn.FromAcquire | crates/obj-core/src/txn.rs:333-348 | takes over the locks, raises the depth gauge and saves header and view, as the begin step of a thread holding the locks |
| WriteTransaction.WriteTxn.Commit | crates/obj-core/src/txn.rs:412-426 | a durable commit publishes and releases; one that fails is dropped, which rolls back and releases; either way the object mirrors the interleaved machine before and after |
| WriteTransaction.WriteTxn.Rollback | crates/obj-core/src/txn.rs:434-451 | leaves the pager rolled back and the locks released, whether or not the header could be written back, as the steps of the interleaved machine do |
| WriteTransaction.WriteTxn.Drop | crates/obj-core/src/txn.rs:454-475 | an unfinished transaction is rolled back before the gate is given up; a finished one changes nothing; the same holds of the thread it mirrors |
| WriteTransaction.CommitRun | crates/obj-core/src/txn.rs:412-426 | what the steps of a commit, durable or failing, leave of thread, gate, pager and readers; the object's method keeps being that thread |
| WriteTransaction.RollBackRun | crates/obj-core/src/txn.rs:434-475 | the same for rollback and drop |
| CatalogCache.RunExplainedExactly | crates/obj-rs/src/db.rs:398-437 | in every interleaving, load, re-derivation and clearing of the poison flag being separate steps: a stale cache is at every moment poisoned or about to be re-derived or flagged if and only if no late clear and no failing commit lets it slip |
| CatalogCache.LateClearHidesStaleCatalog | crates/obj-rs/src/db.rs:424-437 | three threads, no failing commit: the flag is cleared after it was set anew, and a catalog never committed stays cached with nothing to show for it |
| CatalogCache.RunExplained | crates/obj-rs/src/db.rs:367-455 | if nothing slips, a catalog that is not poisoned is cached as committed while no closure runs and nobody is about to re-derive or flag it |
| CatalogCache.AloneAlwaysFresh | crates/obj-rs/src/db.rs:367-455 | one thread at a time always starts on the committed catalog, however often re-deriving failed |
| CatalogCache.CacheIsCommittedExactly | crates/obj-rs/src/db.rs:367-455 | in every interleaving, failing commits and failing re-derivations included, whenever no closure is running the cached catalog is the committed one if and only if no closure that had left the catalog changed was rolled back or failed to commit since it was last written or re-derived |
| CatalogCache.FailedCommitStartsOnLostCatalog | crates/obj-rs/src/db.rs:391-397 | one thread alone: after a failing commit the next closure starts on the contents that were lost |
| CatalogCache.RaceStartsOnRolledBackCatalog | crates/obj-rs/src/db.rs:398-413 | two threads: the second starts on the catalog of the first's rolled-back transaction |
| CatalogRows.KeyClassesDisjoint | crates/obj-core/src/catalog.rs:829-842 | the watermark key, schema keys and valid names never collide, and sort in that order |
| CatalogRows.SchemaKeyOrder | crates/obj-core/src/catalog.rs:72-79 | schema_key is injective and strictly monotone in collection and version |
| CatalogRows.IdBytesRoundTrip | crates/obj-core/src/id.rs:120-141 | ids and their eight bytes determine each other; all zeroes is no id |
| CatalogRows.RunKeeps | crates/obj-core/src/catalog.rs:333-459 | over every run collection ids are distinct and below the watermark, rows stay in their key class, and a schema row once written never changes |
| CatalogRows.InsertStores | crates/obj-core/src/catalog.rs:333-364 | a registration succeeds if and only if the name is valid and new and an id is left; it stores the descriptor under the id it returns, larger than every id before, and nothing else but the watermark changes |
| CatalogRows.CollectionIdsIssuedOnce | crates/obj-core/src/catalog.rs:333-364 | at any later point of a run a registration returns a larger collection id |
| CatalogRows.UpdateStores | crates/obj-core/src/catalog.rs:379-403 | an update succeeds if and only if the collection is there with the same id; it stores the descriptor and nothing else |
| CatalogRows.IssuedInTurn | crates/obj-core/src/catalog.rs:698-710 | over a run whose updates leave it alone, document ids are issued one after the other from the watermark, each once, until they run out |
| CatalogRows.LoweredWatermarkReissues | crates/obj-core/src/catalog.rs:379-403 | an update with a descriptor read earlier has an id issued a second time |
| CatalogRows.PutSchemaRefusesDrift | crates/obj-core/src/catalog.rs:432-459 | a schema is refused if and only if it nests too deep, another shape is stored under its key or a row of an unknown format, with these errors; a refusal changes nothing |
| CatalogRows.ListCollections | crates/obj-core/src/catalog.rs:723-752 | lists by skipping system rows; refused if and only if all rows together exceed the scan limit |
| CatalogRows.ListingIsTheCollections | crates/obj-core/src/catalog.rs:723-752 | the listing holds exactly the collection rows, in the order of the names |
| CatalogRows.Catalog.DoInsert | crates/obj-core/src/catalog.rs:333-364 | tree, cached watermark and outcome of a registration on every path |
| CatalogRows.Catalog.DoUpdate | crates/obj-core/src/catalog.rs:379-403 | tree and outcome of an update, a changed collection id included |
| CatalogRows.Catalog.DoPutSchema | crates/obj-core/src/catalog.rs:432-459 | tree and outcome of storing a schema |
| CatalogRows.Catalog.DoNextId | crates/obj-core/src/catalog.rs:698-710 | issues the watermark and advances it; 0 means exhausted |
| ErrorRing.RunKeeps | crates/libobj/src/lifecycle.rs:121-160 | in every interleaving of callers no string is freed twice or while owned elsewhere; a string recorded at n is freed only by call n + 16, across counter wrap-around |
| ErrorRing.SixteenDividesTheWord | crates/libobj/src/lifecycle.rs:144-147 | a counter modulo 2^64 selects slots as an unbounded one would |
| ErrorRing.LastErrorLive | crates/libobj/src/lifecycle.rs:163-166 | the published pointer is null or a live string, the latest or the one before |
| ErrorRing.GraceWindow | crates/libobj/src/lifecycle.rs:108-160 | a string stays live until sixteen more have been recorded after it |
| ErrorRing.DropLeavesNothing | crates/libobj/src/lifecycle.rs:177-190 | with no call under way, dropping the handle leaves every string ever allocated freed exactly once |
| ErrorRing.DbInner.RecordError | crates/libobj/src/lifecycle.rs:140-151 | the critical section leaves ring, counter and published pointer as the machine's three steps do |
| Backup.CopyMainFile | crates/obj-core/src/backup.rs:111-137 | copies the physical pages or stops at the first that does not verify |
| Backup.OverlayFrozenView | crates/obj-core/src/backup.rs:143-160 | exactly the frozen pages below the page count replace what was copied |
| Backup.RunBackup | crates/obj-core/src/backup.rs:78-188 | succeeds if and only if every physical page verifies, the header decodes and no operation on the destination fails; each page then reads as in the snapshot, and the header decodes, with the snapshot's fields and a salt of zero. With enough room it fails with the error of the first bad page, or as corrupt if the header is |
| Backup.BackupTo | crates/obj-core/src/backup.rs:56-76 | refuses, with the error of the reason, what it cannot copy and a destination it finds, which it leaves alone; a failed copy leaves no file; a file that appears between the look and the creation is removed |

## Left out

- B+tree internals: node layout, splitting and merging, key and value size limits and the scan budget of
  1,000,000 nodes are not modelled; trees are maps, and page graphs are arbitrary.
- Page contents: checksums, compression, encryption and the codec appear only as "verifies" and "decodes";
  documents are maps from field names to values, stored decoded, of one schema version.
- I/O failures: reads in the integrity check and the backup, WAL writes, header write-back and catalog
  re-derivation can fail; elsewhere operations on trees do not. A checkpoint completes or has no effect.
- Cross-process locks: the file lock appears as a token a thread holds; what it excludes is not modelled, and
  exclusion is proved within one process only.
- Crashes, recovery and reopening: runs are those of one open database.
- Attached namespaces, lazy handles, `find_unique`, schema migration, tracing and configuration.
- Panics inside the pager's critical sections: each critical section is one step.
- The C interface other than the error ring, the derive macro, statistics and `quick_check`.
- 32-bit targets: `usize` is 64 bits wide.
- Schema rows and codec errors inside a document write: a document is stored decoded, so nothing fails between
  issuing an id and filing the document.
- Steps.Step: of put_schema only that it loads the cached descriptor and reports an outcome; the schema rows
  themselves are in CatalogRows.
- Runs.Connection.RunTransaction: a commit whose flush fails is not modelled apart; it ends as a rollback.
- The raw-bytes writes, whose callers supply index entries themselves; nothing ties those entries to the document.
- The cached in-memory catalog is taken to be fresh when a transaction begins; when it is, CatalogCache says. The
  promotion of reconciled versions is one step with the commit.
- OrderedMap.BTree.Insert: does not model the errors for keys and values too large for a page.
- Collection.Handle.ApplyDocChange: an index whose diff fails half-way keeps its descriptor's root, whose pages the
  engine has by then freed; the model leaves that index as it was. Besides oversized keys only an occupied key can
  cause it, and from a consistent state none is met (Agreement.NeverKeyExists).
- Collection.Handle.DoInsert: no schema drift, size or codec errors.
- Collection.Handle.DoUpdate: no schema drift, size or codec errors.
- Collection.Handle.DoUpsert: no schema drift, size or codec errors.
- Runs.RunIsStoreRun: trees are maps that do not share pages; what becomes of freed pages after a half-way failure in
  some index is not followed.
- Runs.RunIntactExactly: the same; a half-way failure needs an index that is not sound, so Runs.RunGoodExactly tells
  when there is none.
- DurableRuns.PagesHoldTheRun: that the pages a committing transaction has written are those of its descriptor is a
  hypothesis on the trees, whose code is not modelled.
- IndexCatalog.CatalogRow.DeclareIndex: acts on a collection that exists; invalid and unknown names are not modelled.
- IndexCatalog.CatalogRow.ReconcileIndexes: the same.
- IndexLookup.RangeByValue: for bounds of more fields than the index has it asks that stored ids sort before the
  further fields; IndexBound.InsideGoesById shows that to be exact.
- Backup.BackupTo: the removal of a failed copy succeeds.
- Streams.IterIndexRange.Refill: tree reads do not fail and the index does not change while it is read; a write
  handle that writes while iterating is not modelled.
- Streams.StreamAll: states the record sequence for trees keyed by ids, which every run keeps; a key that is no
  id does not move the resumption marker.
- Streams.StreamDump: the same restriction to trees keyed by ids.
- Query.Count: totals are unbounded numbers; the overflow errors of the 64-bit counters cannot be reached by a
  collection that fits in memory.
- Integrity.IntegrityCheck: the catalog rows and what a full scan of each tree delivers are inputs beside the
  page graph; that a scan of a clean tree completes would need the B+tree's own code.
- Integrity.CleanReportLinksBothWays: speaks of the primary ids the scan delivered; a scan cut short by a corrupt
  page is not reported by the collection of ids itself.
- CrossCheck.CheckPrimaryToIndex: the order of the reports is left open, as it follows a hash set.
- Transactions.RunKeepsInv: claims isolation of a reader only until the second WAL reset after its begin, because
  beyond it isolation depends on the pages written; Transactions.IsolationExactly gives the condition.
- ErrorRing.RunKeeps: strings are told apart by allocation, so reuse of addresses by the allocator is not modelled.
