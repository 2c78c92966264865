# Verified model of the OpenTK mirror

OpenTK mirrors a paged change feed into PostgreSQL and mirrors PostgreSQL into a
search index. This Dafny project models the parts of that pipeline whose
correctness is not visible from reading one function, and proves what they keep,
for all inputs, all runs and all interleavings.

`dafny verify dfyconfig.toml` checks everything.

## What is modelled

**Search reconciliation** (`ReconcilerModel`, `ReconcilerTheorems`,
`ReconcilerOutcomes`, `ReconcilerTightness`, `ReconcilerRun`, `ReconcilerTermination`,
`ReconcilerFollowUp`, `SearchReconciler`,
`SearchProjection`, `SearchIndexClient`, `JsonChunks`, `DocumentIds`, `RowOrder`).
PostgreSQL is a map from UUID to registry row (token, deleted flag, optional
detail row), the index a map from UUID to document. `CategoryReconciler` is the
category loop itself: it observes the highest token, prefix counts and ids above a
boundary, searches a boundary whose counts agree, deletes extras, and re-applies
token windows through a scratch table and a payload-limited batch client. `Pass`
is the specification of one pass and `Rebuilt` its closed form, `ReconcilerRun` is
about whole runs of passes, `ReconcilerTermination` about which of them end, and
`ReconcilerFollowUp` about an index that was right for an earlier snapshot; the theorems
are about those, and the methods are proved to compute them.

**Page writer, parser and schema** (`SyncSchema`, `SqlNames`, `Payload`,
`ParserMeaning`, `SyncDatabase`, `SyncWriter`, `SyncWriterTheorems`, `PageStore`,
`ParserWriter`, `StoredContent`, `StoredRelations`, `WriterLocks`, `WriterIsolation`,
`WriterStatements`, `WriterSerializability`, `TextOrders`). The schema is arbitrary.
The database is a record of maps with the primary keys, per-name constraints, foreign
keys and cascades of the generated tables. `PageStore.Transaction` runs the
statements of one page, `PageStore.Store` commits or rolls back, `Payload.Parser`
consumes the events of one XML payload. `WriterLocks` is a step system of any
number of writers over a lock table keyed by hash. `WriterSerializability` lets those
writers run their statements in any interleaving: each statement sees the rows
committed when it starts and its own transaction's rows, a commit publishes a
transaction's rows at once, and a transaction may fail at any moment.

**Sync runner and feed client** (`SyncRunner`, `CursorUrls`, `FeedRetry`,
`RunnerStore`). A run
consumes arbitrary rounds of surroundings: replies, transient and permanent
failures, refused, lost or acknowledged commits, crashes before and after a
commit, and shutdown requests. `Run` is the specification of one run and
`CategoryRunner.RunCategory` the loop proved against it. `FeedRetry` holds the
retry, recovery and pacing arithmetic.

**The parts together** (`RunnerStore`, `StoredRelations`, `StoredSnapshot`). What the
runner commits are pages the writer takes, relation reads find what the writer stored,
and the tables page writes leave are the snapshot the reconciler mirrors.

**Algorithms** (`EditDistance`, `TextNormalizer`, `RelationReads`,
`JsonChunks`, `SqlNames`), each against an independent definition: lists of
single-character edits, a character scan, the read of one entity, the best
in-order split, and the fixed points of the naming.

## Where the code does less than one might expect

- A completed reconciliation means equal counts, not an equal index. All its passes
  together are one rebuild of the index it found, at the boundary it reports, so the
  result is exact if and only if the documents it found at or below that boundary and
  did not re-apply were right already (`RunIsExactIff`, `ReconcileCategory`; for one
  pass `CompletedPassIsExactIff`, `StaleBodiesSurvive`).
- With tokens at or below 0 the loop may retry for ever. Without negative tokens it ends
  exactly if the documents a rebuild at 0 keeps are as many as the live rows there, or
  verified passes alone make the totals equal (`NonNegativeEndsIff`; for an empty index
  `EmptyIndexCompletesIff`). With negative ones that count does not decide
  (`NegativeBoundaryNeverEnds`), but two passes more than there are stale documents do
  (`EndsIff`).
- One pass brings an index that was right up to date if everything that has changed since
  lies above its tokens, except for bodies drawn from other rows (`OnePassFollows`,
  `MirrorFollows`). A change below them is missed (`ChangeBelowIsMissed`); a relation
  target raised by a page with a lower token than the category has indexed is one.
- Document ids are parsed back exactly for categories without an underscore
  (`DocumentIdRoundTrip`); for other categories the scratch table drops deletes.
- A batch sends upserts before deletes, which equals the given order exactly when
  deletes are final (`TwoPhaseIsInOrderIff`); windows always satisfy that.
- Key-ordered locking excludes deadlocks exactly when the lock hash never takes two
  values in both orders (`DeadlockFreeIffUntangled`); collisions can tangle it.
- An accepted cursor URL has a token if and only if the value of its first `skiptoken`
  pair is the text of a 64-bit integer (`AcceptedHasTokenIff`). One value that is no
  integer is enough to lose it, without any repeated key, and a good one in a later pair
  does not help (`TokenIsTheFirst`, `BadTokenTexts`). A page is committed if and only if
  its link has a token, its payloads parse and the store call goes through (`CommitsIff`),
  and a cursor none of whose answers has such a link is never passed, by any number of
  restarts (`StuckForEver`, `PassableIff`).
- A page with an entity that does not parse or cannot be stored is never passed either
  (`BlockedForEver`, `PassableIffStorable`).
- Listing the documents above a boundary ends if and only if there are no more than
  u32::MAX and a page of them, and fetches each once if and only if the offsets do not
  saturate (`PagingEndsIff`, `FetchedOnceIff`).
- The first wait of a page fetch is not capped by the maximal retry delay, every
  later one is (`BackoffClosedForm`).
- The batched relation read in both directions repeats edges between two requested
  entities, and only those (`BatchOfBothIsExactIff`).

## Model

| member | source | states |
|---|---|---|
| ReconcilerTheorems.PassIsRebuilt | crates/opentk-db/src/search_reconciler.rs:119-162 | one pass, on the counts-matched branch and the repair branch alike, leaves the prefix without re-applied ids plus exactly the projection above the boundary |
| ReconcilerTheorems.AgreementIsExact | crates/opentk-db/src/search_reconciler.rs:618-620 | below 2^63 rows the saturating i64 comparison is an exact comparison of counts |
| ReconcilerTheorems.BoundaryIsVerified | crates/opentk-db/src/search_reconciler.rs:120-139 | the boundary is the highest indexed token if counts agree there, and otherwise one at which they agree or the unverified default 0; for positive tokens counts always agree there |
| ReconcilerTheorems.SearchIsMaximal | crates/opentk-db/src/search_reconciler.rs:214-243 | with downward-closed agreement the binary search returns at least every agreeing boundary in range |
| ReconcilerTheorems.TotalsAgreeIffPrefixKept | crates/opentk-db/src/search_reconciler.rs:141-170 | after a pass the totals agree exactly when no window operation touched an id indexed at or below the boundary |
| ReconcilerTheorems.StaleShrinks | crates/opentk-db/src/search_reconciler.rs:119-211 | a pass adds no stale document, and strictly removes one when it ends with unequal totals |
| ReconcilerOutcomes.PassShrinksStale | crates/opentk-db/src/search_reconciler.rs:119-211 | the stale documents shrink strictly with every incomplete pass, and tokens stay positive |
| ReconcilerOutcomes.RetryTerminates | crates/opentk-db/src/search_reconciler.rs:119-211 | on a fixed snapshot the loop completes within one pass more than there are stale documents |
| ReconcilerOutcomes.RetryDescends | crates/opentk-db/src/search_reconciler.rs:119-211 | a retry verifies a strictly lower boundary than the pass before |
| ReconcilerTightness.RetryBoundIsTight | crates/opentk-db/src/search_reconciler.rs:119-211 | for every n some index with n stale documents completes within n + 1 passes and not within n |
| ReconcilerOutcomes.ExactPrefixGivesExactIndex | crates/opentk-db/src/search_reconciler.rs:141-162 | an exact prefix gives an exact whole index after one pass |
| ReconcilerOutcomes.CompletedPassIsExactIff | crates/opentk-db/tests/search_reconciler.rs:55-85 | a completed pass leaves the projection if and only if the counted prefix was right already |
| ReconcilerRun.RebuiltTwice | crates/opentk-db/src/search_reconciler.rs:119-162 | a rebuild at a lower boundary undoes whatever a rebuild at a higher one did |
| ReconcilerRun.RunIsOneRebuild | crates/opentk-db/src/search_reconciler.rs:119-211 | the index after any number of incomplete passes and one more is one rebuild of the first index, at boundaries that strictly descend |
| ReconcilerRun.RunIsExactIff | crates/opentk-db/src/search_reconciler.rs:119-211 | a whole run leaves the projection iff the documents of the index it started from, at or below its last boundary and not re-applied, were right |
| ReconcilerRun.OneWholeRun | crates/opentk-db/src/search_reconciler.rs:119-211 | every index has exactly one whole run, of at most stale + 1 passes, with exactly one sequence of boundaries; it is one rebuild at the last of them, exact iff what that keeps was right |
| ReconcilerOutcomes.ExactIndexIsFixpoint | crates/opentk-db/src/search_reconciler.rs:119-211 | an index that is right stays as it is and completes in one pass |
| ReconcilerOutcomes.OneSidedErrorsConvergeInOnePass | crates/opentk-db/src/search_reconciler.rs:119-211 | an index that only lacks documents, or only has extra ones, is exact after one pass |
| ReconcilerOutcomes.EmptyIndexCompletesIff | crates/opentk-db/src/search_reconciler.rs:120-139 | from an empty index the loop ends, after one exact pass, if and only if no live row has a token at or below 0 |
| ReconcilerTermination.EndsIff | crates/opentk-db/src/search_reconciler.rs:119-211 | for tokens of any sign the loop ends at all iff it ends within two passes more than there are stale documents |
| ReconcilerTermination.NonNegativeEndsIff | crates/opentk-db/src/search_reconciler.rs:119-243 | without negative tokens the loop ends iff the documents a rebuild at 0 keeps have the right count, and then within stale + 1 passes, or verified passes alone make the totals equal |
| ReconcilerTermination.RightCountSpecialCases | crates/opentk-db/src/search_reconciler.rs:119-243 | the count at 0 is right for positive tokens, and for an empty index iff no live row is at or below 0 |
| ReconcilerTermination.EndsOnlyWithRightCount | crates/opentk-db/src/search_reconciler.rs:119-243 | without negative tokens a loop that ends has some boundary at which the kept documents of the first index have the right count |
| ReconcilerTermination.NegativeBoundaryNeverEnds | crates/opentk-db/src/search_reconciler.rs:119-139 | with a negative highest token the count at 0 can be right and the loop never end |
| ReconcilerFollowUp.OnePassFollows | crates/opentk-db/src/search_reconciler.rs:119-162 | an index that was right is completed by one pass after any changes above its tokens, and exact iff the documents not re-applied want the bodies they had |
| ReconcilerFollowUp.ChangeBelowIsMissed | crates/opentk-db/src/search_reconciler.rs:119-170 | a row that moves to a token below the highest indexed one keeps its old document and the loop completes |
| ReconcilerOutcomes.StaleBodiesSurvive | crates/opentk-db/tests/search_reconciler.rs:55-85 | an index with the right ids and tokens completes untouched, so it ends exact only if no body was stale |
| SearchReconciler.CategoryReconciler.ReconcileCategory | crates/opentk-db/src/search_reconciler.rs:107-212 | the loop is the one whole run of the index it finds, of at most stale + 1 passes; it leaves that index rebuilt at the reported boundary, equal totals, the projection above the boundary, and the projection altogether iff the kept prefix of the index it found was right; it reports as inserted the sum over its passes of the live rows above each boundary, as deleted the sum of the extras dropped and the deleted rows above it, and as rows both, saturating; and as target the greatest token above the boundary |
| SearchReconciler.CategoryReconciler.ReportIsDetermined | crates/opentk-db/src/search_reconciler.rs:107-212 | the index a reconciliation finds determines its run, its boundaries and its whole report |
| SearchReconciler.CategoryReconciler.RunPass | crates/opentk-db/src/search_reconciler.rs:119-170 | one pass computes Pass from the three observations; its report adds the live rows above its boundary to the upserts, the extras dropped and the deleted rows above it to the deletes and both to the rows, and keeps the last target when no window is left; a failed pass adds no stale document |
| ReconcilerRun.TotalsAreSent | crates/opentk-db/src/search_reconciler.rs:386-403 | the totals of the first n passes are the sums of the live rows above each boundary, and of the extras dropped and the deleted rows above it |
| ReconcilerRun.PassCounts | crates/opentk-db/src/search_reconciler.rs:386-403 | one pass adds exactly these upserts and deletes to counters that saturate |
| SearchReconciler.CategoryReconciler.FindVerifiedPrefix | crates/opentk-db/src/search_reconciler.rs:214-243 | at most 64 probes, in i64 range, returns 0 or an agreeing boundary of the search |
| SearchReconciler.CategoryReconciler.DeleteExtraIndexDocuments | crates/opentk-db/src/search_reconciler.rs:282-344 | deletes exactly the documents above the boundary that no live row above it expects, and counts the delete operations sent as deletes, no upserts |
| SearchReconciler.NextBoundaryAdvances | crates/opentk-db/src/search_reconciler.rs:346-370 | the next boundary exists iff rows remain, is a row's token beyond the last, and a full batch or everything lies up to it |
| SearchReconciler.NextBoundaryIsLeast | crates/opentk-db/src/search_reconciler.rs:346-370 | fewer than a batch of rows lie strictly below the next boundary, so no smaller one would do |
| SearchReconciler.ExactlyOneWindow | crates/opentk-db/src/search_reconciler.rs:141-158 | every row above the boundary lies in exactly one window |
| SearchReconciler.CategoryReconciler.ApplyWindows | crates/opentk-db/src/search_reconciler.rs:141-162 | windows increase strictly, cover every row above the start, number at most ceil(n / batch size), and settle each row; an error leaves only whole settled phases |
| SearchReconciler.CategoryReconciler.ApplyWindow | crates/opentk-db/src/search_reconciler.rs:405-424 | whatever scratch rows were left, sends exactly the projected operations, settles the window and counts the upserts and the deletes it sent, leaving other scratch rows alone |
| SearchReconciler.CategoryReconciler.PopulateScratch | crates/opentk-db/src/search_reconciler.rs:426-498 | the scratch rows are those of the window's live rows and parsable deletes, counted |
| SearchReconciler.CategoryReconciler.StoreOperation | crates/opentk-db/src/search_reconciler.rs:462-530 | stores one operation, dropping a delete whose id does not parse back |
| SearchReconciler.CategoryReconciler.OperationsFromScratch | crates/opentk-db/src/search_reconciler.rs:532-561 | reads back the operations in token and id order |
| SearchReconciler.CategoryReconciler.ClearScratch | crates/opentk-db/src/search_reconciler.rs:563-573 | removes this index and category's scratch rows and no others |
| SearchProjection.ProjectCategoryWindow | crates/opentk-db/src/search_projection.rs:96-192 | every row of the window becomes one upsert, one delete or one skip, in order |
| SearchProjection.OperationsSettle | crates/opentk-db/src/search_projection.rs:121-259 | applying the projected operations one by one settles exactly those rows |
| SearchProjection.WindowDeletesAreFinal | crates/opentk-db/src/search_projection.rs:121-259 | the operations of a window never upsert an id they delete |
| SearchIndexClient.TwoPhaseIsInOrderIff | crates/opentk-search/src/lib.rs:491-566 | sending upserts then deletes equals applying in order iff the last operation on every deleted id is a delete |
| SearchIndexClient.MeiliIndex.ApplyBatchWithPayloadLimit | crates/opentk-search/src/lib.rs:491-566 | succeeds iff every operation fits a payload, and then has the two-phase effect |
| SearchIndexClient.MeiliIndex.PostAll | crates/opentk-search/src/lib.rs:500-560 | posting chunk by chunk, the server reading each body, equals applying all items in order, and nothing is posted when one cannot fit |
| SearchIndexClient.MeiliIndex.ChunkIsItsItems | crates/opentk-search/src/lib.rs:500-560 | the body of a chunk reads back as the piece of the items it was made of |
| SearchIndexClient.MeiliIndex.DocumentIdsCategoryAfter | crates/opentk-search/src/lib.rs:702-760 | page by page, with the saturating offset, fetches the listing up to the last exact page and from the saturated offset on |
| SearchIndexClient.PagingEndsIff | crates/opentk-search/src/lib.rs:708-759 | some page reaches the end iff the listing is at most u32::MAX + 1000 long |
| SearchIndexClient.FetchedOnceIff | crates/opentk-search/src/lib.rs:708-759 | when the paging ends every listed id is fetched and no other, and each once iff the listing is at most 4 294 968 000 long |
| SearchIndexClient.MeiliIndex.HighestSkiptoken | crates/opentk-search/src/lib.rs:614-658 | the greatest token of the category, none for an empty one |
| DocumentIds.DocumentIdRoundTrip | crates/opentk-db/src/search_reconciler.rs:591-594 | parsing a document id gives category and UUID back iff the category has no underscore |
| DocumentIds.DocumentIdInjective | crates/opentk-search/src/lib.rs:1327-1329 | different documents have different ids |
| DocumentIds.UuidTextShape | crates/opentk-search/src/lib.rs:1327-1329 | the text of a UUID has hyphens at the 9th, 14th, 19th and 24th place and lower-case hexadecimal digits elsewhere |
| JsonChunks.JsonArrayChunks | crates/opentk-search/src/lib.rs:769-805 | fails exactly when some item cannot fit, naming the first; otherwise gives a greedy fitting split with right bodies and counts |
| JsonChunks.BodyIsJsonArray | crates/opentk-search/src/lib.rs:769-805 | the body of a chunk is the bytes `[`, its items with `,` between neighbours, and `]` |
| JsonChunks.GreedyIsOptimal | crates/opentk-search/src/lib.rs:769-805 | no in-order split that respects the limit has fewer chunks |
| JsonChunks.ChunksKeepItems | crates/opentk-search/src/lib.rs:769-805 | the chunks hold the items in order, none lost |
| JsonChunks.SomeSplitFitsIff | crates/opentk-search/src/lib.rs:769-805 | a fitting split exists iff every item fits alone |
| PageStore.Store.WriteSyncPage | crates/opentk-db/src/sync_writer.rs:62-164 | all or nothing: an error leaves the database and cursor as they were, success is the page's result, and seen = written + deleted |
| PageStore.Transaction.WriteEntity | crates/opentk-db/src/sync_writer.rs:85-134 | the statements of one entity, in order, have the effect of ApplyEntity or its error and add to the counters; RegistryAfterEntity, RowHoldsMetadata, FieldCells, RelationRowsAfterEntity, RepeatedRowsAfterEntity and PageCounters say value by value what that effect is |
| PageStore.Transaction.InsertRelationRows | crates/opentk-db/src/sync_writer.rs:340-373 | inserts and counts exactly the relations whose SQL name the table ends in |
| PageStore.Transaction.InsertRepeatedScalarRows | crates/opentk-db/src/sync_writer.rs:375-419 | binds and inserts exactly the scalars of the table's field |
| PageStore.EverySeenIsWrittenOrDeleted | crates/opentk-db/src/sync_writer.rs:77-134 | every entity of a page is counted once, as written iff live |
| SyncSchema.EntityNamedIsFirst | crates/opentk-core/src/official_schema.rs:61-64 | a category is looked up as the first entity type with that category, XML element or Rust name |
| SyncWriterTheorems.PagesKeepRegistryInvariant | crates/opentk-db/src/sync_writer.rs:211-306 | every sequence of page writes keeps: an entity row has a live, no older registry row, relation rows have source and target, scalar rows their entity |
| SyncDatabase.DeletedKeysHaveNoRows | crates/opentk-db/src/postgres_schema.rs:524-529 | under the invariant a deleted key has no entity, relation or repeated-scalar rows |
| SyncWriterTheorems.PageActsByEffect | crates/opentk-db/src/sync_writer.rs:211-288 | a page acts on each registry row by one overwrite-or-raise effect, whatever was there |
| StoredContent.RegistryAfterEntity | crates/opentk-db/src/sync_writer.rs:211-288 | after an entity is written its own registry row has the page's token and time, its deletion flag and its update time; its relations, if it is live, raise token and times of the rows they point to to the greatest given, or insert them live; every other row is unchanged |
| StoredContent.EntityColumnsAre | crates/opentk-db/src/postgres_schema.rs:484-533 | the columns of an entity table are the six metadata columns, the content attributes of its type, the enclosure of a download entity and one for each field that occurs once and is no relation, each with its name, type and nullability |
| StoredContent.RowHoldsMetadata | crates/opentk-db/src/sync_writer.rs:436-460 | the row begins with source_category, source_id, latest_skiptoken, deleted = false, source_updated_at and atom_updated_at, each with the value named so in the entity or the page, and content_type, content_length and enclosure_url hold the entity's |
| StoredContent.RowDeterminesMetadata | crates/opentk-db/src/sync_writer.rs:421-475 | entities and pages that give equal rows agree on category, id, token, both times and, where the table has the columns, on content type, content length and enclosure |
| SyncWriter.ScalarForIsLast | crates/opentk-db/src/sync_writer.rs:427-431 | of several scalars whose names give one column, the last is stored |
| StoredContent.FieldCells | crates/opentk-db/src/sync_writer.rs:461-534 | a single field's column, under its SQL name, holds the field's scalar: text as it is or as the UUID it spells, a flag, date or time as it is, a number in the column's width; NULL if there is no scalar, and never for a required field that is not nillable |
| StoredContent.RepeatedRowsAfterEntity | crates/opentk-db/src/sync_writer.rs:375-419 | a written entity's repeated-scalar rows are exactly those of its scalars of repeated fields, in the field's table, under the ordinal and with the value as stored by its type |
| StoredContent.RelationRowsAfterEntity | crates/opentk-db/src/sync_writer.rs:340-373 | a written entity's relation rows are exactly one per relation, with its name, target and ordinal, in the table of the category and name, and with the entity's update time |
| StoredContent.StoredRowsDetermineContent | crates/opentk-db/src/sync_writer.rs:308-534 | two entities that leave the same rows have the same metadata, the same scalars, up to the spelling of UUIDs, and the same relations |
| StoredContent.PagesKeepPlaced | crates/opentk-db/src/sync_writer.rs:340-373 | after any pages of parsed entities a relation row is in the table of its category and name, a relation of the schema, so rows agreeing in everything but the table are one row |
| WriterIsolation.CursorsAfter | crates/opentk-db/src/sync_writer.rs:136-160 | a page sets its category's cursor row to its token, next link and time, and no other |
| SyncWriterTheorems.EntityWrittenAlike | crates/opentk-db/src/sync_writer.rs:85-134 | an entity is accepted or refused independently of the database, ends with the same current rows, and touches no other key's rows |
| SyncWriterTheorems.PageTwiceIsOnce | crates/opentk-db/src/sync_writer.rs:62-163 | applying a successful page again changes nothing, even if its entities reference or repeat each other |
| SyncWriterTheorems.AcceptanceIsThePagesOwn | crates/opentk-db/src/sync_writer.rs:62-163 | whether a page is accepted does not depend on the database |
| WriterLocks.CollectSyncEntityKeys | crates/opentk-db/src/sync_writer.rs:172-196 | strictly ascending keys, by category and then by id, exactly those of the page's entities and relation targets, or the first category mismatch |
| TextOrders.BeforeAtFirstDifference | crates/opentk-db/src/sync_writer.rs:172-196 | one text comes before another iff at the first difference it ends or has the smaller character |
| WriterLocks.LocksAreExclusive | crates/opentk-db/src/sync_writer.rs:198-209 | in every reachable state of any number of writers no two hold the same key |
| WriterLocks.DeadlockFreeIffUntangled | crates/opentk-db/src/sync_writer.rs:166-209 | some unfinished writer can always go on, for every run of writers over a key set, iff the lock hash does not tangle the set |
| WriterLocks.InjectiveIsUntangled | crates/opentk-db/src/sync_writer.rs:198-209 | a hash without collisions on the keys does not tangle them |
| WriterLocks.TangledDeadlocks | crates/opentk-db/src/sync_writer.rs:198-209 | two writers whose keys hash alike in opposite orders do get stuck |
| WriterLocks.RunsEnd | crates/opentk-db/src/sync_writer.rs:74-76 | a run has at most as many steps as there are keys and writers |
| WriterIsolation.LocksCoverWrites | crates/opentk-db/src/sync_writer.rs:74-134 | a page changes no registry or current row outside the keys it locked |
| WriterIsolation.DisjointPagesCommute | crates/opentk-db/src/sync_writer.rs:74-134 | whole pages of two categories without a locked key in common give the same database in either order; WritersAreSerializable covers every other case |
| WriterStatements.PageExecutes | crates/opentk-db/src/sync_writer.rs:85-134 | the statements of a page, one after another, give the page write or its error |
| WriterSerializability.StatementsAlike | crates/opentk-db/src/sync_writer.rs:211-419 | over databases that agree on the locked keys a transaction's statements fail alike or write alike, and leave all other rows alone |
| WriterSerializability.LocksCoverStatements | crates/opentk-db/src/sync_writer.rs:172-196 | every statement of a page reads and writes within the keys the page locks |
| WriterSerializability.WritersAreSerializable | crates/opentk-db/src/sync_writer.rs:62-164 | in every interleaving of locks, statements, commits and failures of any number of writers, the committed database is the one the committed pages give alone, each once, in commit order, each accepted there |
| WriterSerializability.RefusedOnlyAlone | crates/opentk-db/src/sync_writer.rs:74-134 | in every reachable state a writer's statement fails only if its page is refused on its own, over any database |
| WriterSerializability.WritersGoOn | crates/opentk-db/src/sync_writer.rs:74-134 | with acceptable pages and an untangled hash some unfinished writer can always go on without failing |
| Payload.ParseRoot | crates/opentk-sync/src/payload.rs:163-223 | event by event computes the entity or the error of ParsedPayload, and every accepted entity is well parsed; AcceptsExactly says value by value what the entity is, RefusedFor why a payload is refused |
| Payload.ParserSoundness | crates/opentk-sync/src/payload.rs:225-323 | accepted values have their field's kind and type, ordinals of a field ascend, single fields occur once, required ones are present |
| Payload.Parser.NextOrdinal | crates/opentk-sync/src/payload.rs:527-541 | counts every occurrence, and refuses a second one of a single field |
| Payload.Parser.ParseChild | crates/opentk-sync/src/payload.rs:225-284 | one child extends scalars, relations and counts as specified or is refused |
| ParserMeaning.AcceptsExactly | crates/opentk-sync/src/payload.rs:163-284 | the parser gives an entity iff the payload says it: id, verwijderd, bijgewerkt, contentType and contentLength as the attributes spell them, deleted iff verwijderd is true, True or 1, and otherwise one scalar or relation per child, in order, under its occurrence number, each value spelled by the child's text in its type and each target by its ref and bijgewerkt; it accepts iff the attributes are readable and the payload is deleted or every child is valid by itself and every required field occurs |
| ParserMeaning.RefusedFor | crates/opentk-sync/src/payload.rs:225-323 | a live payload is refused for its first child that is not valid, with the reason that fits that child, and if all are valid for the first required field that does not occur |
| ParserWriter.EntityAcceptedIffStorable | crates/opentk-db/src/sync_writer.rs:340-534 | over any database a parsed live entity is written iff its UUID texts parse and contentLength fits i32; a refusal is a type mismatch, never a NULL, key, uniqueness or foreign-key error; child rows are exactly one per relation and repeated scalar, in their own tables |
| ParserWriter.SecondRelationIsRefused | crates/opentk-db/src/postgres_schema.rs:560-608 | an entity with two relations of a field that occurs once is refused, whether it was parsed or not |
| ParserWriter.EntityRowIsGood | crates/opentk-db/src/sync_writer.rs:421-475 | every stored value has its column's type and range, and NULL only where allowed |
| ParserWriter.BelongsToItsField | crates/opentk-db/src/sync_writer.rs:346-353 | a relation belongs to its own field's table and to no other of its category |
| ParserWriter.PageAcceptedIffStorable | crates/opentk-db/src/sync_writer.rs:62-164 | a page of parsed entities is written iff all its live entities are storable |
| ParserWriter.EveryRelationCountedOnce | crates/opentk-db/src/sync_writer.rs:126-129 | the relation counter counts every relation of a live entity exactly once |
| ParserWriter.PageCounters | crates/opentk-db/src/sync_writer.rs:77-134 | the counters of a page of parsed entities: those seen, those live, those deleted, the relations of the live ones and their scalars of repeated fields |
| SqlNames.ComputeSqlName | crates/opentk-db/src/postgres_schema.rs:306-325 | the naming loop gives only lower-case letters, digits and single inner underscores |
| SqlNames.SqlNameSpells | crates/opentk-db/src/postgres_schema.rs:306-325 | every letter and digit is kept in lower case, and an underscore stands exactly where a word starts |
| SqlNames.SqlNameFixedPoints | crates/opentk-db/src/postgres_schema.rs:306-325 | the fixed points of the naming are exactly such names, so it is idempotent |
| SqlNames.ChildTableSplits | crates/opentk-db/src/sync_writer.rs:346-348 | splitting a child table's name at the first double underscore gives both parts back |
| SqlNames.ChildTablesDistinct | crates/opentk-db/src/postgres_schema.rs:535-570 | child table names collide only if both parts do, and never with an entity table |
| SqlNames.ShortenIdentifier | crates/opentk-db/src/postgres_schema.rs:925-936 | unchanged up to 63 characters; otherwise its first 46, an underscore and the 16 digits of its hash, 63 in all |
| CursorUrls.ValidateCursorUrl | crates/opentk-sync/src/syncfeed.rs:647-713 | accepts exactly the URLs with the origin, path, category, content mode and some skiptoken, last value of a key counting; which error comes when |
| CursorUrls.AcceptedCursorsAre | crates/opentk-sync/src/syncfeed.rs:647-713 | an accepted cursor has the scheme, host and port of the client, the path /SyncFeed/2.0/Feed, a last category pair that matches, some skiptoken pair, and no last content pair with another mode |
| CursorUrls.MatchIsLetterByLetter | crates/opentk-sync/src/syncfeed.rs:715-717 | categories match iff they are equally long and the same letter by letter, but for the case of ASCII letters |
| CursorUrls.DistinctKeysAgree | crates/opentk-sync/src/runner.rs:694-698 | without repeated keys the validated token is the one read later |
| CursorUrls.AcceptedHasTokenIff | crates/opentk-sync/src/runner.rs:694-698 | an accepted cursor has a first skiptoken, and a token iff its value is the text of a 64-bit integer |
| CursorUrls.TokenIsTheFirst | crates/opentk-sync/src/runner.rs:694-698 | a cursor with any skiptoken values is accepted and its token is read from the first alone |
| CursorUrls.BadTokenTexts | crates/opentk-sync/src/syncfeed.rs:681-713 | a text without digits or with other characters, and any integer out of range, is no token |
| CursorUrls.IntegerTextsAre | crates/opentk-sync/src/runner.rs:694-698 | a token text is digits in range, alone, after a plus or after a minus, for their value or its negation |
| CursorUrls.ParseI64 | crates/opentk-sync/src/runner.rs:694-698 | the digit loop reads exactly the optionally signed decimal texts in range |
| CursorUrls.I64RoundTrip | crates/opentk-sync/src/runner.rs:694-698 | a printed integer reads back iff it is 64 bits wide |
| SyncRunner.ParsePage | crates/opentk-sync/src/syncfeed.rs:464-613 | a page is accepted iff every entry has an id, a time, the category, a validated next link and no unresolvable enclosure, and the page links validate; it keeps every entry |
| SyncRunner.AcceptedPagesAre | crates/opentk-sync/src/syncfeed.rs:464-613 | a page is accepted iff every entry has an id, a time, a matching category, no enclosure that does not resolve and a next link that is an accepted cursor, and the page's own links are accepted cursors |
| SyncRunner.CategoryRunner.RunCategory | crates/opentk-sync/src/runner.rs:356-473 | the loop over any rounds leaves the store, exit and report of the specification |
| SyncRunner.RunStartsAt | crates/opentk-sync/src/runner.rs:362-390 | a run starts at the stored link or at the first page of the category; until caught up it does nothing where the last page was empty, and a stored link that is no cursor ends it |
| SyncRunner.LoopWithoutPage | crates/opentk-sync/src/runner.rs:393-438 | shutdown ends a loop; a continuous run goes on from the same cursor and store after a recorded transient failure and ends after a permanent one, a run until caught up ends after any |
| SyncRunner.LoopTakesPage | crates/opentk-sync/src/runner.rs:440-472 | what a loop commits, reports and returns for an accepted page with a token in its link, by what becomes of parsing, the store call and shutdown, and from where it goes on |
| SyncRunner.LoopWithoutWayOn | crates/opentk-sync/src/runner.rs:584-605 | a page without its link, or with a link without a token, ends the loop with nothing changed |
| SyncRunner.CategoryRunner.HandleEmptyPage | crates/opentk-sync/src/runner.rs:533-582 | an empty page moves the durable cursor to its resume link or ends the run without a change |
| SyncRunner.CategoryRunner.WritePreparedPage | crates/opentk-sync/src/runner.rs:639-676 | a page and its next cursor are committed together or not at all |
| SyncRunner.SyncStore.Write | crates/opentk-db/src/sync_state.rs:68-134 | one transaction appends the step and sets the row, whatever the caller is told |
| SyncRunner.TurnKeepsCursor | crates/opentk-sync/src/runner.rs:393-472 | one turn commits nothing or one step for the page answered to the cursor, and keeps log and row consistent |
| SyncRunner.CommitsIff | crates/opentk-sync/src/runner.rs:533-676 | a turn commits the page's step iff the page validates, its link has a token, its payloads parse and the store call goes through; otherwise nothing changes |
| SyncRunner.CursorIsDurable | crates/opentk-sync/src/runner.rs:393-472 | at every loop head the in-memory cursor is the one a fresh start would load |
| SyncRunner.RestartIsInvisible | crates/opentk-sync/src/runner.rs:507-531 | killing the process at any loop head and restarting leaves the store and exit of the run that was never killed |
| SyncRunner.HistoriesAreChains | crates/opentk-sync/src/runner.rs:384-472 | under any errors, shutdowns, crashes and restarts the committed steps are one growing chain of next and resume links |
| SyncRunner.CanStart | crates/opentk-db/src/sync_state.rs:32-66 | the stored token is always the one inside the stored URL, and a start never fails on it |
| SyncRunner.HistoriesAgree | crates/opentk-sync/src/runner.rs:384-472 | against a feed that answers every request one way any two histories committed the same pages in the same order, as far as both came |
| SyncRunner.EntriesExactlyOnce | crates/opentk-sync/src/runner.rs:384-472 | against a feed that grows meanwhile, under any errors, shutdowns, crashes and restarts, the committed payloads are the feed's entries from the first cursor on, each exactly once and in order, and the durable cursor stands right after them |
| SyncRunner.HistoriesDeliverAlike | crates/opentk-sync/src/runner.rs:384-472 | any two histories against a growing feed delivered the same entries, as far as both came |
| SyncRunner.StuckForEver | crates/opentk-sync/src/runner.rs:596-605 | a cursor none of whose answers has a link with a token is never passed, however often the program is restarted |
| SyncRunner.PassableIff | crates/opentk-sync/src/runner.rs:596-605 | some history gets past the durable cursor iff the feed has an answer to it whose link has a token |
| RunnerStore.AcceptedIffStorable | crates/opentk-db/src/sync_state.rs:68-90 | over any database and at any time the writer takes a step's page iff its live entities are storable |
| RunnerStore.BlockedForEver | crates/opentk-sync/src/runner.rs:607-676 | a cursor all of whose answers have no token link, do not parse or hold an unstorable entity is never passed |
| RunnerStore.PassableIffStorable | crates/opentk-sync/src/runner.rs:607-676 | some history gets past the durable cursor iff the feed has an answer whose link has a token and whose payloads all parse and can be stored |
| RunnerStore.HistoryIsWritten | crates/opentk-sync/src/runner.rs:440-472 | under any errors, crashes and restarts every committed page is taken by the writer where it comes, and the entities written are what the committed payloads parse to, in order |
| RunnerStore.CursorRowsAgree | crates/opentk-db/src/sync_writer.rs:136-160 | writing the page of a full step sets the category's cursor row to the token and link of the runner's durable row |
| SyncRunner.ReportIsExact | crates/opentk-sync/src/runner.rs:464-470 | a returned report counts exactly the committed pages and entities and ends with the durable token; after a failure at most one page is missing |
| SyncRunner.GoodRunCatchesUpIff | crates/opentk-sync/src/runner.rs:440-472 | with nothing else in the way a run until caught up gets there iff the answers lead to an empty page with a token in every link, and then commits one step per page |
| FeedRetry.FetchPageWithRetries | crates/opentk-sync/src/syncfeed.rs:289-320 | sends until the first outcome not to be retried or max_retries + 1 requests, returns the verdict on the last, and waits as stated; FetchComesTo says which outcomes are retried and what each last one gives |
| FeedRetry.FetchComesTo | crates/opentk-sync/src/syncfeed.rs:289-320 | after k timeouts and statuses 429, 500, 502, 503 or 504, a 2xx answer with a page gives that page after k + 1 requests; a bad page, a transport failure and any other status outside 200 to 299 end the fetch with their errors; one more refusal when k is max_retries gives RetryExhausted with it, one more timeout TimedOut |
| FeedRetry.FetchIsDetermined | crates/opentk-sync/src/syncfeed.rs:289-320 | the outcomes of the requests determine the verdict |
| FeedRetry.BackoffClosedForm | crates/opentk-sync/src/syncfeed.rs:293-318 | wait 0 is the initial delay, wait k the minimum of initial * 2^k and the maximum |
| FeedRetry.FetchWithTransientRecovery | crates/opentk-sync/src/runner.rs:475-498 | every fetch but the last failed transiently, the last did not or was the eighth; the requests are the sum of each fetch's, at most 8 * (max_retries + 1) |
| FeedRetry.RecoveryComesTo | crates/opentk-sync/src/runner.rs:475-505 | a fetch that timed out or failed in transport is repeated, up to the eighth; any other result, and the eighth, is what the recovery comes to |
| FeedRetry.RecoveryIsDetermined | crates/opentk-sync/src/runner.rs:475-498 | the outcomes of the requests determine how often is fetched and what comes of it |
| FeedRetry.Limiter.RecordObservation | crates/opentk-sync/src/syncfeed.rs:398-409 | a 429 adds, a success halves, anything else leaves the shared pause |
| FeedRetry.PacingIsBounded | crates/opentk-sync/src/syncfeed.rs:398-409 | in any interleaving of responses the pause stays within the maximal retry delay |
| FeedRetry.RefusalsAddUp | crates/opentk-sync/src/syncfeed.rs:398-409 | refusals in a row add up to the maximum |
| FeedRetry.PacingEndsIff | crates/opentk-sync/src/syncfeed.rs:406-408 | k successes in a row end the pause iff 2^k exceeds it |
| EditDistance.EditDistance | crates/opentk-search-eval/src/lib.rs:1476-1491 | the two-row loop computes the recursive Levenshtein distance |
| EditDistance.LeastNumberOfEdits | crates/opentk-search-eval/src/lib.rs:1476-1491 | the distance is reached by a list of single-character edits and by no shorter one |
| EditDistance.ZeroIffEqual | crates/opentk-search-eval/src/lib.rs:1476-1491 | zero exactly on equal strings |
| EditDistance.Symmetric | crates/opentk-search-eval/src/lib.rs:1476-1491 | symmetric |
| EditDistance.Triangle | crates/opentk-search-eval/src/lib.rs:1476-1491 | the triangle inequality |
| EditDistance.TokenScore | crates/opentk-search-eval/src/lib.rs:1364-1381 | each score exactly when it applies; a fuzzy match iff at most one, or two for long queries, edits lead from query to token |
| EditDistance.ContainsIff | crates/opentk-search-eval/src/lib.rs:1364-1381 | a text contains another iff it is something, the other, and something |
| TextNormalizer.NormalizeText | crates/opentk-sync/src/document_content.rs:396-412 | the line-by-line program computes the character scan |
| TextNormalizer.WordsAreKept | crates/opentk-sync/src/document_content.rs:396-412 | the exact sequence of words is kept |
| TextNormalizer.WhitespaceIs | crates/opentk-sync/src/document_content.rs:396-412 | the whitespace trimmed and split at is the Unicode White_Space property, character by character |
| TextNormalizer.GapIsNormalized | crates/opentk-sync/src/document_content.rs:396-412 | between two words stands a paragraph break for two or more line breaks, a line break for one, and otherwise one space, CR LF and CR counting as one line break each; both sides are normalised by themselves |
| TextNormalizer.EndsAreTrimmed | crates/opentk-sync/src/document_content.rs:396-412 | whitespace around the text is dropped |
| TextNormalizer.WordStays | crates/opentk-sync/src/document_content.rs:396-412 | a single word stays as it is |
| TextNormalizer.NormalFormsAreFixed | crates/opentk-sync/src/document_content.rs:396-412 | results are trimmed, single-spaced and without two blank lines in a row; exactly such texts are fixed; idempotent |
| TextNormalizer.NormalizeInlineText | crates/opentk-sync/src/document_content.rs:389-394 | the words of all parts joined by single spaces |
| TextNormalizer.InlineKeepsWords | crates/opentk-sync/src/document_content.rs:389-394 | the inline form has exactly the words of the parts, in order |
| RelationReads.GroupRelationsByEntity | crates/opentk-db/src/read_model.rs:560-589 | groups only requested ids, each with its share of the rows in order |
| RelationReads.UnionCounts | crates/opentk-db/src/read_model.rs:694-804 | a query gives a stored row once for each of its ends that is asked for |
| RelationReads.QueryOrderDoesNotMatter | crates/opentk-db/src/read_model.rs:442-470 | the sorted read does not depend on the order the database returns rows in; ReadsAscend says which order that is |
| RelationReads.ReadsAscend | crates/opentk-db/src/read_model.rs:451-468 | every read, of one entity or several, and each group of it ascends by source category, source, name, target category, target and ordinal, in this order |
| RelationReads.ReadGives | crates/opentk-db/src/read_model.rs:694-728 | the read of one entity gives a stored row once if it starts there and outgoing relations are asked for, once if it ends there and incoming ones are, and nothing else |
| RelationReads.BatchRefinesSingleReads | crates/opentk-db/src/read_model.rs:527-589 | for outgoing and for incoming each requested id gets exactly the sorted sequence of its own read |
| RelationReads.BatchOfBothGivesSameRows | crates/opentk-db/src/read_model.rs:527-589 | for both directions each requested id gets exactly the set of its own rows, sorted |
| RelationReads.BatchOfBothIsExactIff | crates/opentk-db/src/read_model.rs:527-589 | for both directions the sequences are equal iff no stored edge joins two requested entities |
| StoredRelations.StoredOnce | crates/opentk-db/src/read_model.rs:694-728 | every relation row of a database whose rows are placed is in exactly one relation table of the schema, once |
| StoredRelations.ReadsGiveWhatWasWritten | crates/opentk-db/src/read_model.rs:442-470 | after any page writes the read of one entity gives each stored row once for each of its ends that is asked for, and nothing else |
| StoredRelations.BatchReadsOfWrittenPages | crates/opentk-db/src/read_model.rs:527-589 | over the tables any page writes leave, the batched read is exact in one direction, and in both iff no stored edge joins two requested entities |
| StoredSnapshot.DocumentsAreEntities | crates/opentk-db/src/search_reconciler.rs:245-344 | the index called for has one document per entity row of the category, with the registry token, no older than the row |
| StoredSnapshot.PagesAdvance | crates/opentk-db/src/sync_writer.rs:211-288 | pages above a token leave every row at or below it alone and keep every live row registered |
| StoredSnapshot.MirrorFromScratch | crates/opentk-db/src/search_reconciler.rs:107-212 | after any pages with positive tokens an empty index is made exact by one pass, with a document for every entity row |
| StoredSnapshot.MirrorFollows | crates/opentk-db/src/search_reconciler.rs:107-212 | an index right for the pages up to a token is completed by one pass after any further pages above it, exact iff the documents not re-applied want the bodies they had |

## Left out

- SearchReconciler.CategoryReconciler.ReconcileCategory: proved for a category without an underscore, as all official ones are, for positive tokens, and for at most 4 294 968 000 ids in index and database together, beyond which FetchedOnceIff says that listings repeat ids; EmptyIndexCompletesIff and ApplyWindow cover the other tokens and categories. The payload byte counts of the report are not modelled.
- SearchReconciler.CategoryReconciler.RunPass: the same bound on the listing, and no underscore in the category.
- SearchIndexClient.MeiliIndex.DocumentIdsCategoryAfter: requires a listing whose paging ends, as PagingEndsIff says; the listing is in one fixed order and does not change between pages.
- SearchIndexClient.MeiliIndex.PostAll: reading a body back as the operations it was written from is trusted of the JSON library, on whole arrays.
- StoredSnapshot.MirrorFollows: the document body is any function of the tables; document contents and relation labels, which it may be drawn from, are not modelled further.
- RunnerStore.HistoryIsWritten: an empty page only moves the runner's durable row, so CursorRowsAgree compares it with the writer's cursor row for full pages only; other categories write between the pages, which does not change what is accepted.
- ReconcilerTheorems.SearchIsMaximal: assumes downward-closed agreement, without which the code's binary search is not maximal.
- SearchReconciler.CategoryReconciler.FindVerifiedPrefix: assumes a mismatch at i64::MAX when the search starts there; otherwise the saturating increment would repeat the last probe for ever.
- SearchReconciler.CategoryReconciler.ApplyWindow: the insert of a conflicting scratch key and a missing registry row are modelled and proved not to occur on a fixed snapshot.
- DocumentIds.DocumentIdRoundTrip: UUID text is the hyphenated lower-case form the code writes; the other spellings its UUID library accepts are not modelled.
- PageStore.Store.WriteSyncPage: a missing generated table, connection errors and the jsonb parse of a value are not modelled; locks are modelled in WriterLocks and not held by the sequential store.
- WriterIsolation.DisjointPagesCommute: two pages of one category conflict on the cursor row, where the last write wins; WritersAreSerializable puts those in commit order.
- WriterSerializability.WritersAreSerializable: rows are overlaid key by key, the cursor is written with the commit, and a writer that fails is not started again; pages of an unknown category or with an entity of another one open no transaction and are left out of the system.
- WriterLocks.DeadlockFreeIffUntangled: the lock hash is any function of the key; PostgreSQL's own row locks are subsumed by the advisory locks on the same keys.
- Payload.ParseRoot: starts from a sequence of child elements and does not model XML lexing, the root name check or the reader's trimming; number, date, time and UUID parsing are arbitrary functions; the 32-bit overflow of an ordinal is not modelled.
- ParserWriter.EntityAcceptedIffStorable: assumes field names that stay distinct and unreserved as SQL names, which the generated field table satisfies; the field table itself is not modelled.
- SqlNames.ShortenIdentifier: on ASCII names, where bytes are characters; the 64-bit stable hash is an arbitrary function.
- SyncRunner.HistoriesAgree: assumes a feed that never answers a request in two ways; EntriesExactlyOnce and HistoriesDeliverAlike are for a feed that grows.
- CursorUrls.ValidateCursorUrl: a URL is its parts and decoded query pairs; URL parsing and printing are trusted to round trip, and the port is the effective one.
- SyncRunner.CategoryRunner.RunCategory: the page writer is a store call that is refused, lost or acknowledged; timestamps, error rows and several categories at once are not modelled; entity totals do not saturate.
- FeedRetry.FetchPageWithRetries: the attempt counter is unbounded, so its overflow after 2^32 - 1 retries is not modelled; request timing and the concurrency semaphore are left out.
- EditDistance.TokenScore: scores are hundredths instead of floating point; token lengths in bytes are a parameter.
- RelationReads.BatchRefinesSingleReads: assumes rows stored under their own category's tables and one stored row per sort key; BatchReadsOfWrittenPages proves both of the tables page writes leave, for a schema whose categories have different SQL names. Unknown categories are left out.
- HTTP, task polling, SQL text, connection pools, scheduling, tracing, XML, HTML, PDF and DOCX lexing, ranking and document contents, the API, configuration, startup checks and the user interface are not part of this model.
