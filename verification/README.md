# cqserver in Dafny

cqserver is a publish/subscribe server with a queryable state of the world per
topic.  This project models the parts in which a fast structure must agree with
a simple meaning, and proves that it does, or states exactly when it does.

`dafny verify dfyconfig.toml` checks the whole project.

| files | component |
|---|---|
| `Float64`, `Orders`, `Values` | binary64 patterns and their order-preserving encoding, comparators and sorting, cell values and the column store |
| `Predicates`, `SecIndex`, `Planner`, `Executor` | WHERE predicates in three-valued logic, the secondary index, the three planner hints, query execution |
| `Topic`, `Tombstones` | publish, delete, slot reuse and index maintenance; queries over a table with deleted rows |
| `PredicateIndex` | selective fan-out of mutations to subscriptions |
| `RowSubscription`, `TopN` | row-oriented and limited subscriptions, on a topic and over whole runs |
| `PartialPublish` | what selective fan-out does to limited subscriptions and continuous aggregates |
| `Conflation`, `GroupConflation` | the delta-coalescing buffer in front of a slow consumer, for rows and for groups |
| `Grouping`, `Windows`, `Statistics`, `Accumulators` | group keys and first-seen grouping, window numbering, variance and percentile, aggregate states |
| `Aggregation`, `LiveAggregates`, `LiveTopic` | the one-pass aggregate executor, the incremental path beside it, and continuous aggregates over whole runs of mutations, on an abstract table and on a topic |
| `Pivot` | static and dynamic PIVOT |
| `JoinKeys`, `Joins` | the hash join of four kinds and the AS OF join |
| `Like` | LIKE patterns translated to regular expressions |
| `Framing`, `Nvfix`, `PublishStore` | client-side frame reassembly, the NVFIX codec, the publish buffer and its replay |

Code that changes state in place is modelled by classes and by methods with
loops; each is proved against a function of its inputs or of the old state, and
the properties are then lemmas about that function.  Code outside the
repository enters as function parameters about which nothing is assumed unless
a contract says so: binary64 arithmetic, case mapping, the regular-expression
engine, JSON text, UTF-8, timestamp formatting, the RPC outcome.

Where the code does not do what one would expect of it, the model follows the
code.  These are the places, each with a concrete instance and the exact
condition:

- A double column is indexed by bit pattern, so a lookup for one zero loses the
  other (`Planner.PlanExact`, `Planner.NegativeZeroIsLost`).
- An in-place update files the published value before conversion to the column
  type, so a value of another type leaves the index out of step
  (`Topics.Topic.UpdateSlot`, `Topics.NarrowIntegerIsLost`); a record without a
  key can fill a slot that is still free (`Topics.KeylessUpdate`,
  `Topics.KeylessFillsFreedSlot`).
- A row query drops deleted rows after OFFSET and LIMIT, so `LIMIT 1` can return
  nothing (`Tombstones.LivePageExact`, `Tombstones.LimitCountsTombstones`).
- A subscription's active set is seeded from deleted slots too, so a new record
  can arrive as an update (`RowSubscriptions.SeedExact`,
  `RowSubscriptions.NewRecordArrivesAsUpdate`).
- A partial publish is not shown to a subscription whose filter reads none of
  the supplied columns, even if the subscriber is shown them, or they are what
  it orders, groups or aggregates by (`RowSubscriptions.SkippingExact` and
  `RowSubscriptions.DataUpdateIsSkipped`, `PartialPublishes.RankingSkipsExactly`
  and `PartialPublishes.OrderingUpdateIsSkipped`,
  `PartialPublishes.AggregateSkipsExactly` and
  `PartialPublishes.GroupMoveIsSkipped`).
- A limited subscription ranks with a comparator of its own, which ignores
  timestamps and Booleans and puts a null double last, and it keeps a deleted
  row that the filter accepts (`TopN.WindowsExact` and
  `TopN.TimestampsAreNotRanked`, `TopN.RankedAreLive` and
  `TopN.DeletedRowStaysRanked`).
- Within one flush window an eviction overwritten by a later Add on its slot is
  lost, and a record that changes slot can be (`Conflation.ConflationExact`,
  `Conflation.EvictAddRemoveIsLost`, `Conflation.MovingKeyCanBeLost`).
- The groups of a continuous aggregate share one slot of the conflator, so two
  groups that change in one window overwrite each other
  (`GroupConflation.GroupFlushExact`,
  `GroupConflation.SecondGroupOverwritesFirst`).
- The canonical group key shows infinities as null, so the incremental path can
  merge groups that the executor keeps apart (`Aggregation.LockstepExact`,
  `Aggregation.InfinityJoinsNull`).
- A null 32-bit integer is counted under the literal -2147483648 of a static
  pivot list (`Pivot.CellRowsExact`, `Pivot.NullCountsAsSentinel`).
- Join keys are separated by U+001F without escaping, so, unless some USING
  column never joins, they are ambiguous as soon as a string column of one table
  faces a string column of another name in the other, be it two string columns in
  both tables or one a side in different places (`JoinKeys.UnambiguousExactly`,
  `JoinKeys.TwoStringsCollide`, `JoinKeys.UnlikeTypesCollide`), and the join then
  pairs rows whose cells do not meet (`Joins.SchemasJoinExactly`).
- A right-only row shows right values in left columns of the same name
  (`Joins.RightOnlyExact`, `Joins.RightValueOnTheLeft`).
- A field named `__proto__` does not survive in a JavaScript object, nor a byte
  order mark at the start of a name or value (`Nvfix.ObjectExact`,
  `Nvfix.ProtoIsLost`, `Nvfix.MarkIsLost`).
- A publish that failed and was not persisted is lost in a crash
  (`PublishStores.CrashLosesNothingExactly`, `PublishStores.UnpersistedIsLost`).

## Model

| member | source | states |
|---|---|---|
| `Float64.OrderedBitsIsBitwise` | crates/cq-core/src/sec_index.rs:101-115 | bit by bit, the arithmetic form of the encoding is the one of the source: a non-negative pattern has its top bit flipped, a negative one every bit |
| `Float64.UnitsAreScaled` | crates/cq-core/src/sec_index.rs:101-115 | the magnitude of a normal pattern is its significand times its power of two (section 3.4 of IEEE 754-2019) |
| `Float64.HalvedDivides` | crates/cq-core/src/sec_index.rs:101-115 | the scaling that turns units into a real number divides by that power of two |
| `Float64.UnitsStrictlyMonotone` | crates/cq-core/src/sec_index.rs:101-115 | among non-negative patterns a larger pattern has a larger magnitude |
| `Float64.EncodedOrder` | crates/cq-core/src/sec_index.rs:101-115 | a smaller encoding denotes a smaller number, the one exception being -0 before +0 |
| `Float64.OrderedBitsIsTotalOrder` | crates/cq-core/src/sec_index.rs:101-115 | the encoding is injective and its integer order is exactly totalOrder on non-NaN patterns (section 5.10 of IEEE 754-2019) |
| `Float64.OrderedBitsFollowsNumbers` | crates/cq-core/src/sec_index.rs:101-115 | numeric order survives the encoding, and is reflected by it away from the two zeroes |
| `Float64.LeAgainstKeys` | crates/cq-core/src/sec_index.rs:101-115 | the IEEE operator and the order of the keys disagree on exactly one pair: +0 <= -0 |
| `Orders.StableSortAscends` | crates/cq-core/src/query.rs:3460-3472 | the stable sort ascends, and within a class of ties keeps the input order |
| `Orders.SortDedup` | crates/cq-core/src/predicate_index.rs:104-124 | sort followed by dedup keeps the same elements, each once, ascending |
| `Values.CompareValuesAntisymmetric` | crates/cq-core/src/query.rs:4534-4583 | the cell comparator is reversed by swapping its arguments and is reflexive |
| `Values.CompareValuesTransitive` | crates/cq-core/src/query.rs:4534-4583 | the cell comparator is transitive on every column type, nulls and NaN included |
| `Values.RowOrderIsPreorder` | crates/cq-core/src/query.rs:3460-3472 | for every ORDER BY list, mixed directions included, the row comparator is a total preorder |
| `Values.Base64Injective` | crates/cq-core/src/sec_index.rs:67-75 | different byte strings have different base64 text (section 4 of RFC 4648), so byte strings can be keyed by it |
| `Predicates.EvalIsKleene` | crates/cq-core/src/predicate.rs:605-703 | AND, OR and NOT are the minimum, maximum and complement of three-valued logic (section 8.12 of ISO/IEC 9075:1992) |
| `Predicates.StringExprFrame` | crates/cq-core/src/predicate.rs:348-402 | a string expression has the same value on rows that agree on the columns it references |
| `Predicates.NumExprFrame` | crates/cq-core/src/predicate.rs:489-562 | a numeric expression has the same value on rows that agree on the columns it references |
| `Predicates.EvalFrame` | crates/cq-core/src/predicate.rs:246-309 | a predicate has the same three-valued result on rows that agree on the columns collected for it |
| `SecIndex.KeysCorrespond` | crates/cq-core/src/sec_index.rs:47-171 | a value has a hash key exactly when it has a range key, and the two name each other |
| `SecIndex.SecondaryIndex.Add` | crates/cq-core/src/sec_index.rs:228-241 | adds exactly one (column, key, row) entry to both maps, and none for a null or an uncovered column; the maps stay in lockstep without empty bitmaps |
| `SecIndex.SecondaryIndex.Remove` | crates/cq-core/src/sec_index.rs:247-270 | removes exactly that entry from both maps and drops bitmaps that become empty |
| `SecIndex.SecondaryIndex.RowsInRange` | crates/cq-core/src/sec_index.rs:323-349 | the rows whose key lies in the closed interval, either end optional; an inverted interval gives the empty set and never reaches the map walk that would panic |
| `SecIndex.SecondaryIndex.RowsGreaterThan` | crates/cq-core/src/sec_index.rs:355-367 | the rows whose key is strictly greater |
| `SecIndex.SecondaryIndex.RowsLessThan` | crates/cq-core/src/sec_index.rs:371-383 | the rows whose key is strictly less |
| `SecIndex.UnionBetween` | crates/cq-core/src/sec_index.rs:323-349 | walking the ordered map and uniting bitmaps gives the rows filed under some key of the interval |
| `SecIndex.InvertedRangeIsEmpty` | crates/cq-core/src/sec_index.rs:323-349 | no key lies in an inverted interval |
| `SecIndex.RunHistory` | crates/cq-core/src/sec_index.rs:228-270 | after any sequence of additions and removals the two maps denote one relation: an entry is present exactly when the last operation on it was an addition |
| `Planner.LookupMisses` | crates/cq-core/src/query.rs:3181-3399 | for every cell test and non-null value: a lookup by bit pattern or key interval selects the value exactly when the test holds, except for zeroes of the other sign |
| `Planner.EqualityLookupExact` | crates/cq-core/src/query.rs:3181-3197 | the equality lookup misses a row on which its test holds if and only if the row holds the zero of the other sign |
| `Planner.SetHintIsReach` | crates/cq-core/src/query.rs:3287-3399 | the IN/OR lookups return exactly the rows they reach cell by cell: OR either side, AND every side that can be looked up |
| `Planner.ReachFailsAtZero` | crates/cq-core/src/query.rs:3287-3399 | they fail to reach a matching row if and only if a zero bars them: one side of an AND, or every matching side of an OR while the other side does not arrive either |
| `Planner.PlanExact` | crates/cq-core/src/query.rs:3136-3399 | for every predicate tree the plan loses a matching row if and only if the lookup it settles on, by equality, by range or by set, misses it by a zero |
| `Planner.PlanIsSound` | crates/cq-core/src/query.rs:3136-3173 | with or without an index, the candidates lie in the table and contain every matching row not so lost |
| `Planner.NegativeZeroIsLost` | crates/cq-core/src/query.rs:3136-3173 | a concrete table and index, in sync, where the plan for `x = 0` loses the row that holds -0 |
| `Executor.ScanIsExact` | crates/cq-core/src/query.rs:3451-3458 | the full scan lists exactly the matching rows, ascending |
| `Executor.Filter` | crates/cq-core/src/query.rs:3453-3457 | evaluating the predicate on candidates keeps exactly the matching ones, in order |
| `Executor.MatchingRows` | crates/cq-core/src/query.rs:3451-3458 | the surviving rows are those of the full scan less the ones lost to a zero, so they are the full scan if and only if none is lost |
| `Executor.OfferedExactly` | crates/cq-core/src/query.rs:3451-3458 | the index offers fewer rows than match if and only if some matching row is lost to a zero |
| `Executor.SkipAndTruncate` | crates/cq-core/src/query.rs:3474-3486 | OFFSET and LIMIT leave the stated slice, also when they exceed the number of rows |
| `Executor.ExecuteQuery` | crates/cq-core/src/query.rs:3451-3532 | running with an index gives sort, offset, limit and projection of the rows not lost to a zero; that is the result of the full scan (same rows, order and total) if and only if none is lost |
| `Executor.ScanOrder` | crates/cq-core/src/query.rs:3451-3472 | before OFFSET and LIMIT the rows are the matching ones in ORDER BY order, ties by row number |
| `Topics.Stored` | crates/cq-core/src/store.rs:544-645 | a stored cell always has its column's type, and a value of that type is stored unchanged |
| `Topics.WrittenTwice` | crates/cq-core/src/store.rs:544-645 | two writes of a row amount to one, in every column the last value that can be stored winning |
| `Topics.WrittenBack` | crates/cq-core/src/store.rs:544-645 | publishing a row over itself changes nothing, and publishing a record twice is publishing it once |
| `Topics.WellTypedKeysSurvive` | crates/cq-core/src/topic.rs:1147-1163 | values of the column types are filed under the key of what is stored |
| `Topics.NarrowIntegerIsLost` | crates/cq-core/src/topic.rs:1147-1163 | a 32-bit integer published into an indexed 64-bit column is filed under a key that differs from the stored one |
| `Topics.RefillFreeSlot` | crates/cq-core/src/topic.rs:964-978 | refilling a freed slot keeps keys and slots in bijection, leaks no slot and adds exactly the record |
| `Topics.AppendNewSlot` | crates/cq-core/src/topic.rs:979-985 | appending keeps keys and slots in bijection and adds exactly the record |
| `Topics.FreeLiveSlot` | crates/cq-core/src/topic.rs:1540-1552 | freeing a slot removes exactly the record and leaks no slot |
| `Topics.KeylessUpdate` | crates/cq-core/src/topic.rs:986-1003 | writing slot 0 without a key keeps the slots in order if and only if it does not fill a freed slot |
| `Topics.KeylessFillsFreedSlot` | crates/cq-core/src/topic.rs:986-1003 | a keyless record published after the record on slot 0 was deleted fills a slot that is still free |
| `Topics.PutUpserts` | crates/cq-core/src/topic.rs:953-985 | whatever the types of its values, a keyed publish upserts its record and nothing else, and leaks no slot |
| `Topics.PutTouchesOne` | crates/cq-core/src/topic.rs:953-985 | it writes one slot, the one its key then has and had if it was known |
| `Topics.DropDeletes` | crates/cq-core/src/topic.rs:1540-1552 | a delete removes its record and nothing else, and leaks no slot |
| `Topics.Topic.IndexNewRow` | crates/cq-core/src/topic.rs:1125-1134 | indexing a fresh row brings the index to describe the table |
| `Topics.Topic.ReindexRow` | crates/cq-core/src/topic.rs:1147-1163 | an in-place update of an index in sync files the row under the published values, other rows untouched |
| `Topics.Topic.UpdateSlot` | crates/cq-core/src/topic.rs:956-963 | whatever the values, the row is written; an index in sync stays so if and only if conversion keeps every index key |
| `Topics.Topic.ClearSlot` | crates/cq-core/src/topic.rs:1540-1552 | a row is taken out of the index and nulled, and an index in sync stays so |
| `Topics.Topic.Publish` | crates/cq-core/src/topic.rs:953-1010 | whatever the values and key, rows, keys and free slots change as the source says; a valid topic stays valid if and only if an in-place update keeps the keys and a keyless record does not fill a freed slot |
| `Topics.Topic.Delete` | crates/cq-core/src/topic.rs:1530-1570 | rows, keys and free slots lose the key, whether it was there is reported, and a valid topic stays valid |
| `Topics.Topic.Query` | crates/cq-core/src/topic.rs:2228-2268 | on a valid topic, whatever the query, the page of the rows the index offers less the deleted rows on it, each projected; if no matching row is lost to a zero (`ZeroSafe`), that is the page of a full scan less the deleted rows |
| `Tombstones.DropTombstones` | crates/cq-core/src/topic.rs:2250-2263 | walking rows and source rows together keeps exactly the live ones, in order and each with its own row |
| `Tombstones.TombstonesExact` | crates/cq-core/src/topic.rs:2228-2268 | dropping deleted rows after OFFSET and LIMIT leaves the page of the live rows if and only if no deleted row comes before the page, and none is on it or no live row comes after it (or both pages are empty) |
| `Tombstones.NoCutNoHarm` | crates/cq-core/src/topic.rs:2228-2268 | without OFFSET and LIMIT nothing is lost |
| `Tombstones.LimitCountsTombstones` | crates/cq-core/src/topic.rs:2228-2268 | one deleted row ahead of one live row: LIMIT 1 returns nothing |
| `Tombstones.LivePageExact` | crates/cq-core/src/topic.rs:2228-2268 | the same for the page of a query in ORDER BY order |
| `Tombstones.QueryLive` | crates/cq-core/src/topic.rs:2228-2268 | whatever the index, the page of the rows it offers less the deleted rows on it, each row projected; if no matching row is lost to a zero (`AllOffered`), that is the page of the full scan less the deleted rows |
| `Topics.Topic.PublishKeyed` | crates/cq-core/src/topic.rs:956-985 | a keyed record is put in its slot; an index in sync stays so if and only if an in-place update keeps every index key |
| `Topics.Topic.PublishUnkeyed` | crates/cq-core/src/topic.rs:986-1003 | a record without a key goes to slot 0, with the exact condition for the topic to stay valid |
| `Topics.Topic.ReuseSlot` | crates/cq-core/src/topic.rs:964-978 | a new key takes the last freed slot, and an index in sync stays so |
| `Topics.Topic.InsertKey` | crates/cq-core/src/topic.rs:964-985 | a new key takes the last freed slot, else a new one, and an index in sync stays so |
| `Topics.ApplyOp` | crates/cq-core/src/topic.rs:953-1010 | one operation with values of the column types keeps a topic valid, changes its contents as the operation describes, and names the slot it touched |
| `Topics.KeyedRunIsMap` | crates/cq-core/src/topic.rs:953-1010 | after any run of keyed publishes, of whatever values, and deletes, from any orderly contents, the slots hold the map those operations describe, none lost |
| `Topics.TypedIsSafe` | crates/cq-core/src/topic.rs:1147-1163 | values of the column types never put the index out of step |
| `Topics.RecordsAfter` | crates/cq-core/src/topic.rs:953-1010 | one keyed operation keeps keys and slots in bijection, leaks no slot, and changes the records as an upsert or delete of the map does |
| `Topics.OneRowTouched` | crates/cq-core/src/topic.rs:953-1010 | it touches one row, whose slot the key has or had, and adds it to or removes it from the live rows; a delete of an unknown key touches none |
| `Topics.RunTopic` | crates/cq-core/src/topic.rs:953-1163 | after any run of publishes and deletes, values and keys being what they may, rows, keys and free slots are those the operations describe; for keyed records they are the map described; and the index is in sync if every operation was safe when it came |
| `PredicateIndexes.PredicateIndex.Add` | crates/cq-core/src/predicate_index.rs:53-70 | registers a subscription under the columns its predicate references, replacing what its id had before; forward and reverse maps stay exact |
| `PredicateIndexes.PredicateIndex.Remove` | crates/cq-core/src/predicate_index.rs:74-89 | removes a subscription from every list and drops lists that become empty |
| `PredicateIndexes.PredicateIndex.Affected` | crates/cq-core/src/predicate_index.rs:104-124 | the subscriptions without columns and those referencing a changed column, sorted, each once; all of them when the changed columns are unknown |
| `PredicateIndexes.NoFalseNegatives` | crates/cq-core/src/predicate_index.rs:104-124 | a subscription that is not dispatched has the same three-valued result on both rows |
| `PredicateIndexes.DispatchAfter` | crates/cq-core/src/predicate_index.rs:53-124 | after any history of add, re-add and remove, every registered subscription left out of the fan-out sees no change |
| `Conflation.Conflator.Submit` | crates/cq-core/src/conflation.rs:58-80 | submitting coalesces with the pending delta of the slot, keeping a removal that a re-add follows |
| `Conflation.Conflator.Drain` | crates/cq-core/src/conflation.rs:84-89 | drains the preserved removals in order, then every pending delta once, and leaves the conflator empty |
| `Conflation.SlotsAreIndependent` | crates/cq-core/src/conflation.rs:58-80 | what is held for a slot depends only on the deltas of that slot |
| `Conflation.SlotOutcome` | crates/cq-core/src/conflation.rs:58-126 | on one slot, the held deltas give each record the outcome of the raw ones if and only if its record is not abandoned |
| `Conflation.HeldExactly` | crates/cq-core/src/conflation.rs:58-80 | a legal window leaves, for each slot, one pending delta and at most one released removal, by a closed form of the deltas on that slot |
| `Conflation.ConflationExact` | crates/cq-core/src/conflation.rs:58-126 | for every legal window, whether or not records change slot: all drain orders give the view of the raw deltas if and only if no surviving delta contradicts its record's last one and no record held at the start is forgotten |
| `Conflation.PreservesIfStationary` | crates/cq-core/src/conflation.rs:58-126 | where records keep their slots, that is to say that no eviction is followed, on its slot, by another record or by a removal |
| `Conflation.StationaryExact` | crates/cq-core/src/conflation.rs:58-126 | there the same holds of each drain order by itself |
| `Conflation.AgreesAfter` | crates/cq-core/src/conflation.rs:58-126 | after a legal window in which no record is on two slots at once, slots and view again agree on who lives where |
| `Conflation.Relay` | crates/cq-core/src/conflation.rs:58-89 | for any legal stream cut into flush windows that conflation preserves, the consumer of the conflated stream ends with the view of the consumer of the raw one |
| `Conflation.Flush` | crates/cq-core/src/conflation.rs:58-89 | one window through the conflator is drained in some order of what was held, and leaves it empty |
| `Conflation.EvictAddRemoveIsLost` | crates/cq-core/src/conflation.rs:69-79 | evict, re-admit and delete in one window flush nothing, so the consumer keeps an evicted record |
| `GroupConflation.AnyRun` | crates/cq-core/src/conflation.rs:58-126 | any deltas on one slot leave a closed form: the last one pending, unless it removes what was added, and the removals an Add came after |
| `GroupConflation.SharedExact` | crates/cq-core/src/conflation.rs:58-126 | records sharing a slot: the flush gives the view of the raw deltas if and only if every record but the pending one is left as its last delta says |
| `GroupConflation.GroupFlushExact` | crates/cq-core/src/subscription.rs:596-635 | group deltas, which all carry row 0: a client of the flushed ones has the view of all of them if and only if every group is so told |
| `GroupConflation.OneGroupIsLegal` | crates/cq-core/src/subscription.rs:596-635 | such deltas are legal for a slot that holds the group exactly if the client shows it |
| `GroupConflation.OneGroupIsTold` | crates/cq-core/src/subscription.rs:596-635 | the evaluator's deltas about one group, each of which fits the view it meets, are always flushed rightly |
| `GroupConflation.FlushWindow` | crates/cq-core/src/subscription.rs:479-637 | one window of mutations evaluated and flushed: the client is brought to the evaluator's view if and only if every group is told the truth |
| `GroupConflation.RunGroups` | crates/cq-core/src/subscription.rs:479-637 | from subscription through any windows of mutations, each flushed through the conflator: the client has the keyed result of a full execution on the final table if every window tells it the truth |
| `GroupConflation.SecondGroupOverwritesFirst` | crates/cq-core/src/subscription.rs:596-635 | two groups updated in one window: the first update is lost |
| `Conflation.MovingKeyCanBeLost` | crates/cq-core/src/conflation.rs:82-89 | a record that changes slot within a window is lost under one of the drain orders |
| `LikePatterns.LikeToRegex` | crates/cq-core/src/predicate.rs:1006-1035 | the loop emits the anchored translation of the pattern |
| `LikePatterns.TranslationReadsBack` | crates/cq-core/src/predicate.rs:1006-1035 | read back as a regular expression, the emitted text is the sequence of literals and wildcards of the pattern; metacharacters and escapes never change meaning |
| `LikePatterns.TranslationPreservesMeaning` | crates/cq-core/src/predicate.rs:1006-1066 | for every pattern and string the emitted expression accepts the string exactly when LIKE does, trailing backslash included |
| `Framing.JsReader.OnData` | client-sdks/js/src/client.js:218-243 | one chunk dispatches what the buffer followed by the chunk contains, keeps the rest, and stops at the first bad frame |
| `Framing.JsSteady` | client-sdks/js/src/client.js:222-233 | the verdict of the JavaScript reader on the front of its buffer does not change when more bytes arrive, unless it was to wait, and a frame lies in the buffer |
| `Framing.TsSteady` | client-sdks/ts/src/transport-node.ts:117-131 | so for the TypeScript reader |
| `Framing.ConsumeAppend` | client-sdks/js/src/client.js:218-243 | for any reader with those two properties, reading a stream in two parts takes what reading it whole takes, including where it stops |
| `Framing.FramesReadBack` | client-sdks/js/src/client.js:207-243 | and if it takes each frame as its message, it takes the frames of a list, one after the other, as that list |
| `Framing.FeedJs` | client-sdks/js/src/client.js:218-243 | for any split into chunks the dispatched messages and the failure are those of the unsplit stream |
| `Framing.RoundTripJs` | client-sdks/js/src/client.js:207-243 | any list of messages, framed and split arbitrarily, is dispatched as that list |
| `Framing.TcpTransport.Drain` | client-sdks/ts/src/transport-node.ts:117-131 | delivers the parsable bodies of all complete frames in order and keeps the rest |
| `Framing.FeedTs` | client-sdks/ts/src/transport-node.ts:71-76 | for any split into chunks the delivered messages are those of the unsplit stream |
| `Framing.RoundTripTs` | client-sdks/ts/src/transport-node.ts:87-131 | any list of messages, framed and split arbitrarily, is delivered as that list |
| `Framing.ReadersAgree` | client-sdks/ts/src/transport-node.ts:117-131 | the two readers deliver the same messages from every stream the JavaScript one reads without failing |
| `Framing.JsDeliversPrefix` | client-sdks/js/src/client.js:218-243 | on every stream the JavaScript reader delivers a prefix of what the TypeScript one delivers |
| `Nvfix.Encode` | client-sdks/ts/src/nvfix.ts:12-36 | encodes field by field and reports the first illegal name, separator or nested value |
| `Nvfix.ErrorsPropagate` | client-sdks/ts/src/nvfix.ts:15-34 | an error in a prefix of the record is the error of the record |
| `Nvfix.DecodeTs` | client-sdks/ts/src/nvfix.ts:38-58 | the scanning decoder takes the pieces between separators in order, skipping empty ones |
| `Nvfix.DecodePy` | client-sdks/python-legacy/cqclient/nvfix.py:43-54 | the splitting decoder takes the same pieces, and also fails on malformed text |
| `Nvfix.TsReads` | client-sdks/ts/src/nvfix.ts:38-58 | the scanning decoder fails if and only if some piece has no `=`, and otherwise makes the assignments of the pieces in order |
| `Nvfix.PyReads` | client-sdks/python-legacy/cqclient/nvfix.py:43-54 | the splitting decoder fails at the first piece without `=` or that is not text |
| `Nvfix.DecodersAgree` | client-sdks/python-legacy/cqclient/nvfix.py:43-54 | on every byte string, errors included, the two decoders agree if and only if no piece before the first one without `=` is malformed text and, where there is none, the last assignment to every name is the same |
| `Nvfix.ObjectExact` | client-sdks/ts/src/nvfix.ts:38-58 | a JavaScript object decoded by `TextDecoder` is the record if and only if no name is `__proto__` and no name or value starts with a byte order mark |
| `Nvfix.RoundTrip` | client-sdks/ts/src/nvfix.ts:12-58 | decoding undoes encoding for every record with legal names and separator-free values, `=` in values included; for the scanning decoder if and only if the record is safe in an object |
| `Nvfix.ProtoIsLost` | client-sdks/ts/src/nvfix.ts:52-54 | a field named `__proto__` is dropped |
| `Nvfix.MarkIsLost` | client-sdks/ts/src/nvfix.ts:39 | a byte order mark at the start of a value is dropped |
| `PublishStores.LocalPublishStore.Load` | crates/cq-client/src/publish_store.rs:68-89 | opening on what was persisted keeps the entries and sets the next id above all of them |
| `PublishStores.LocalPublishStore.Record` | crates/cq-client/src/publish_store.rs:95-107 | records at the end under a fresh id |
| `PublishStores.LocalPublishStore.Complete` | crates/cq-client/src/publish_store.rs:111-114 | drops exactly the entry with the id |
| `PublishStores.Client.Publish` | crates/cq-client/src/client.rs:427-445 | a success leaves the buffer as it was and acknowledges the payload; a failure leaves it recorded at the end |
| `PublishStores.Client.ReplayPublishStore` | crates/cq-client/src/client.rs:380-397 | entries before the first failure are acknowledged, the failed one moves to the back under a new id, the rest stay; ids never go back |
| `PublishStores.ReplayConserves` | crates/cq-client/src/client.rs:380-397 | for every pattern of failures, acknowledged plus pending is what was pending |
| `PublishStores.RunClient` | crates/cq-client/src/client.rs:380-445 | over any run of publishes, replays, persists and crashes, with any failures, buffer and file are those of the accounts, and published plus returned is acknowledged plus buffered plus lost |
| `PublishStores.AtLeastOnce` | crates/cq-client/src/publish_store.rs:1-12 | every published payload is acknowledged or buffered, but for those a crash lost |
| `PublishStores.CrashLosesNothingExactly` | crates/cq-client/src/publish_store.rs:130-145 | a crash loses nothing if and only if the file holds every buffered payload |
| `PublishStores.UnpersistedIsLost` | crates/cq-client/src/publish_store.rs:130-145 | a failed publish that was not persisted is lost in a crash |
| `Statistics.AbsorbDescribes` | crates/cq-core/src/query.rs:4030-4040 | one update keeps: count times mean is the sum, and m2 is the sum of squares less count times mean squared |
| `Statistics.DescribesMeaning` | crates/cq-core/src/query.rs:4030-4040 | after any inputs the mean is the mean, and m2 is the sum of squared distances from it, never negative |
| `Statistics.Welford` | crates/cq-core/src/query.rs:4133-4153 | the one-pass variance and standard deviation, population and sample, are those of the two-pass definition; null on too few inputs |
| `Statistics.VarianceIgnoresOrder` | crates/cq-core/src/query.rs:4030-4040 | the result does not depend on the order of the rows |
| `Statistics.PercentileCont` | crates/cq-core/src/query.rs:4041-4047 | collects the non-null inputs and interpolates at the rank of the quantile, always in bounds |
| `Statistics.AtIsAffine` | crates/cq-core/src/query.rs:4123-4131 | between neighbouring ranks the value moves along the line joining the two sorted values |
| `Statistics.PercentileLaws` | crates/cq-core/src/query.rs:4114-4132 | the percentile lies between the extremes, equals them at 0 and 1, and grows with the quantile |
| `Statistics.PercentileIgnoresOrder` | crates/cq-core/src/query.rs:4114-4132 | the percentile does not depend on the order of the inputs |
| `Grouping.PartOf` | crates/cq-core/src/query.rs:3780-3806 | a cell has the null part exactly when it is null |
| `Grouping.SameGroup` | crates/cq-core/src/query.rs:3780-3806 | two cells of a column share a part exactly when they are equal or both null, byte strings included |
| `Grouping.FirstSeenLaws` | crates/cq-core/src/query.rs:4232-4234 | the group order lists each key once and no other |
| `Grouping.FirstSeenOrder` | crates/cq-core/src/query.rs:4232-4234 | keys are listed in order of first appearance |
| `Grouping.GroupFold` | crates/cq-core/src/query.rs:4218-4266 | the one-pass loop leaves every group with the fold over exactly its own rows, in row order |
| `Grouping.Partition` | crates/cq-core/src/query.rs:3542-3556 | the partition loop leaves every key with its positions, ascending |
| `Windows.Ranks` | crates/cq-core/src/query.rs:3582-3604 | the RANK loop, comparing neighbours only, gives each position the start of its run of ties plus one |
| `Windows.DenseRanks` | crates/cq-core/src/query.rs:3605-3623 | the DENSE_RANK loop gives each position the number of runs begun |
| `Windows.PrecedingIsPrefix` | crates/cq-core/src/query.rs:3574-3581 | ROW_NUMBER is one plus the number of peers earlier in the order, or tied and earlier in the result |
| `Windows.RankIsRunStart` | crates/cq-core/src/query.rs:3582-3604 | RANK is one plus the number of peers strictly earlier in the order |
| `Windows.DenseRankIsRuns` | crates/cq-core/src/query.rs:3605-3623 | DENSE_RANK is the number of tie classes up to the row |
| `Windows.SamePlaceTies` | crates/cq-core/src/query.rs:3590-3597 | the tie test on all ORDER BY columns decides the ties of the sort comparator, whatever the directions |
| `Windows.ApplyWindow` | crates/cq-core/src/query.rs:3536-3623 | every result row gains, under the alias, the closed-form number over its own partition, and nothing else changes |
| `Windows.RowNumberBijection` | crates/cq-core/src/query.rs:3574-3581 | over a partition of n rows ROW_NUMBER takes each of 1..n exactly once |
| `Accumulators.SumMeaning` | crates/cq-core/src/query.rs:3946-3953 | SUM over integers is the exact sum of the non-null inputs, and unseen without any |
| `Accumulators.CountMeaning` | crates/cq-core/src/query.rs:3939-3945 | COUNT counts every input of COUNT(*) and every non-null input of COUNT(col) |
| `Accumulators.DistinctMeaning` | crates/cq-core/src/query.rs:4048-4057 | COUNT(DISTINCT) holds exactly the parts of the non-null inputs |
| `Accumulators.FloatFolds` | crates/cq-core/src/query.rs:3954-3969 | SUM and AVG over doubles add the non-null inputs in row order and count them; a percentile collects them |
| `Accumulators.IntExtremes` | crates/cq-core/src/query.rs:3970-3989 | MIN and MAX over integers are attained and bound every non-null input |
| `Accumulators.FloatExtremes` | crates/cq-core/src/query.rs:3990-4009 | MIN and MAX over doubles are attained and bound every non-null input by value |
| `Accumulators.StringExtremes` | crates/cq-core/src/query.rs:4010-4029 | MIN and MAX over strings are attained and bound every non-null input |
| `Aggregation.BuildRow` | crates/cq-core/src/query.rs:4293-4310 | group columns, then aggregates; HAVING sees that row, and scalars over aggregates are added after it |
| `Aggregation.ApplyPostAgg` | crates/cq-core/src/query.rs:4163-4176 | each scalar sees the ones before it; hidden aggregate columns are dropped at the end |
| `Aggregation.StatesAccumulate` | crates/cq-core/src/query.rs:4240-4266 | each aggregate of a group accumulates exactly what the rows of the group feed to it, in row order |
| `Aggregation.AggregateColumn` | crates/cq-core/src/query.rs:4299-4301 | an aggregate whose alias is not taken again shows its final value under it |
| `Aggregation.AggregateOneGroup` | crates/cq-core/src/query.rs:4372-4444 | the recomputed row of a group is its key and fold, `None` exactly when HAVING drops it |
| `Aggregation.FindRows` | crates/cq-core/src/query.rs:4188-4226 | the rows aggregated are the live rows the index offers; they are the live rows of the full scan if and only if no live matching row is lost to a zero (`NoneLost`) |
| `Aggregation.GroupRowsOf` | crates/cq-core/src/query.rs:4214-4310 | one pass over the rows emits one row per group in order of first appearance; without GROUP BY an empty input still makes one group |
| `Aggregation.ExecuteAggregate` | crates/cq-core/src/query.rs:4182-4358 | with or without an index and liveness filter, the result is that of grouping the live offered rows, then ordered and truncated; if no live matching row is lost to a zero (`NoneLost`), that of grouping all live matching rows |
| `Aggregation.SortedOutput` | crates/cq-core/src/query.rs:4320-4345 | if every ORDER BY column holds cells of one kind, the rows come out in the order of the JSON comparison, ties as they were |
| `Aggregation.PartJsonInjective` | crates/cq-core/src/query.rs:3808-3820 | parts of one column are equal in JSON exactly when equal, or both shown as null |
| `Aggregation.CanonicalAgrees` | crates/cq-core/src/query.rs:4452-4467 | two rows share a canonical key exactly when, column by column, their parts are equal or both shown as JSON null |
| `Aggregation.BuildMembership` | crates/cq-core/src/query.rs:4479-4505 | the two maps are mutually inverse, hold no empty bitmap, and partition exactly the live matching rows by canonical key |
| `Aggregation.GroupsInLockstep` | crates/cq-core/src/query.rs:4372-4444 | for each group the recomputed row is the very row the one-pass executor makes for the key of any of its members, dropped by HAVING in both or neither |
| `Aggregation.LockstepExact` | crates/cq-core/src/query.rs:4452-4505 | the bitmaps are the executor's groups if and only if no two live matching rows have keys that differ only where both are shown as null |
| `Aggregation.FiniteKeysNeverClash` | crates/cq-core/src/query.rs:4452-4505 | finite double keys never clash |
| `Aggregation.InfinityJoinsNull` | crates/cq-core/src/query.rs:3813 | an infinite and a null group key are two groups for the executor and one canonical key |
| `Aggregation.GroupRowCanonical` | crates/cq-core/src/subscription.rs:235-245 | an emitted row has the canonical key of the rows behind it |
| `LiveAggregates.SeedView` | crates/cq-core/src/topic.rs:2626-2631 | keys the executor's rows by canonical key |
| `LiveAggregates.Snapshot` | crates/cq-core/src/topic.rs:2611-2631 | the keyed rows of the executor are the keyed result of a full execution, if no live matching row is lost to a zero (`NoneLost`) |
| `LiveAggregates.ViewIsFullResult` | crates/cq-core/src/subscription.rs:641-709 | a view shows exactly the visible groups of the membership maps if and only if it is the keyed result of a full execution |
| `LiveAggregates.FullViewUnique` | crates/cq-core/src/subscription.rs:658-666 | there is only one such view |
| `LiveAggregates.ShownFrame` | crates/cq-core/src/subscription.rs:514-517 | a group without the mutated row shows what it showed |
| `LiveAggregates.MatchesFrame` | crates/cq-core/src/subscription.rs:526-539 | a mutation changes the membership of its own row only |
| `LiveAggregates.Diff` | crates/cq-core/src/subscription.rs:596-635 | Add, Update, Remove or nothing: every delta fits the view it meets, applying them gives the new view, and no delta means no change |
| `LiveAggregates.AggregateSubscription.constructor` | crates/cq-core/src/topic.rs:2611-2639 | subscribing, where no live matching row is lost to a zero (`NoneLost`), seeds the last emitted rows and the membership maps consistently |
| `LiveAggregates.AggregateSubscription.MoveRow` | crates/cq-core/src/subscription.rs:551-583 | moves the row between groups in both maps and names every group that changed |
| `LiveAggregates.AggregateSubscription.Refresh` | crates/cq-core/src/subscription.rs:585-637 | recomputing the dirty groups brings every group up to date |
| `LiveAggregates.AggregateSubscription.Evaluate` | crates/cq-core/src/subscription.rs:518-637 | after one mutation the subscription is again in step with the table; the deltas fit the old view one after the other and carry it to the new one |
| `LiveAggregates.RunSubscription` | crates/cq-core/src/subscription.rs:479-637 | from a subscription that loses no live matching row to a zero (`NoneLost`), through any run of upserts and deletes: every delta fits the view it meets, and the snapshot with the deltas applied is the keyed result of a full execution on the final table |
| `RowSubscriptions.RowSubscription.constructor` | crates/cq-core/src/subscription.rs:894-926 | the active set is seeded with every slot whose row is selected, dead or alive |
| `RowSubscriptions.SeedExact` | crates/cq-core/src/subscription.rs:894-926 | the seed is right about live slots, and takes in no dead slot if and only if none is free or the filter rejects a row of nulls |
| `RowSubscriptions.RowSubscription.Evaluate` | crates/cq-core/src/subscription.rs:1045-1155 | a mutation becomes an Add, Update, Oof, Remove or nothing, by whether the slot was active and is selected now, and the active set follows |
| `RowSubscriptions.MutationReacts` | crates/cq-core/src/subscription.rs:1045-1155 | the delta takes the selected records from before a publish or delete, with the slot it reuses, to those after it, even if dead slots are active |
| `RowSubscriptions.TracksAfter` | crates/cq-core/src/subscription.rs:1045-1155 | after a mutation a live slot is again active exactly if its row is selected |
| `RowSubscriptions.NoGhostAfter` | crates/cq-core/src/subscription.rs:1054-1058 | mutations make no dead slot active |
| `RowSubscriptions.MutationIsLegal` | crates/cq-core/src/subscription.rs:1045-1155 | without active dead slots, every delta fits the slot it travels under and leaves the right record there, as the conflator needs |
| `RowSubscriptions.OccupancyAgrees` | crates/cq-core/src/subscription.rs:1045-1155 | the selected records are those that hold a slot, each one slot |
| `RowSubscriptions.FollowOp` | crates/cq-core/src/topic.rs:953-1010 | one publish or delete on a topic carries the subscription and its subscriber along |
| `RowSubscriptions.FollowWindow` | crates/cq-core/src/subscription.rs:1045-1155 | so do all operations between two flushes, and their deltas form a legal window |
| `RowSubscriptions.FollowWindows` | crates/cq-core/src/subscription.rs:1045-1155 | over many windows the raw deltas take the first view to the last, and every window is legal for the slots the previous ones left |
| `RowSubscriptions.RunRows` | crates/cq-core/src/subscription.rs:894-1155 | subscribe, then publish and delete at will: the raw deltas take the snapshot to the selected records of the state the operations describe, and so do the flushed ones if the active set was seeded clean and conflation preserves every window, records changing slot included |
| `RowSubscriptions.SkippingExact` | crates/cq-core/src/subscription.rs:1006-1009 | not showing a partial publish to a subscription whose filter reads no supplied column is right if and only if the record is outside the subscription, or was in it and its text is unchanged |
| `RowSubscriptions.DataUpdateIsSkipped` | crates/cq-core/src/topic.rs:1459-1516 | an update of a column the filter does not read is not delivered though the subscriber is shown that column |
| `RowSubscriptions.NewRecordArrivesAsUpdate` | crates/cq-core/src/subscription.rs:894-926 | a record put into a slot seeded dead is announced as an update of something never added |
| `TopN.RankValuesExact` | crates/cq-core/src/subscription.rs:64-79 | the ranking compares two cells of a column as a query does, if and only if they are not zeros of different sign, a NaN with the wrong sign, or different Booleans or timestamps |
| `TopN.RankOrderIsPreorder` | crates/cq-core/src/subscription.rs:81-130 | the ranking is a total preorder on the rows of a table |
| `TopN.Locate` | crates/cq-core/src/subscription.rs:734-740 | the search stops at the first entry that does not come before the sought one |
| `TopN.RemoveEntry` | crates/cq-core/src/subscription.rs:734-736 | removing a row's old key leaves the other rows in ranking order |
| `TopN.InsertEntry` | crates/cq-core/src/subscription.rs:737-740 | inserting a row's new key keeps the ranking in order |
| `TopN.PartitionUnique` | crates/cq-core/src/subscription.rs:149-152 | a set of rows has one listing in ranking order |
| `TopN.TakeIsTop` | crates/cq-core/src/subscription.rs:747-752 | the first entries of the ranking are exactly the matching rows whose ROW_NUMBER is within the limit |
| `TopN.Diff` | crates/cq-core/src/subscription.rs:759-807 | entering rows are added, leaving ones evicted if still ranked and removed otherwise, the mutated row updated if it stays; one change per row and no other |
| `TopN.DiffApplies` | crates/cq-core/src/subscription.rs:759-807 | in whatever order, these changes take the contents of the old window to those of the new |
| `TopN.TopNSubscription.constructor` | crates/cq-core/src/subscription.rs:894-934 | the window is seeded with the top rows among all slots |
| `TopN.TopNSubscription.Rerank` | crates/cq-core/src/subscription.rs:729-745 | taking the mutated row out and putting it back leaves all matching rows ranked by their current keys |
| `TopN.TopNSubscription.Evaluate` | crates/cq-core/src/subscription.rs:716-808 | after every mutation the window holds the top rows of the table, and the changes take the subscriber there |
| `TopN.RunTopN` | crates/cq-core/src/subscription.rs:716-808 | subscribe with a LIMIT, then publish and delete at will: the changes take the first window to the last, and it is what the query would return then wherever the two can be compared |
| `TopN.AlikeIsOrderedAlike` | crates/cq-core/src/subscription.rs:64-130 | the comparators do so whenever the ORDER BY cells of the matching rows are pairwise compared alike |
| `TopN.QueryOrderExact` | crates/cq-core/src/query.rs:3460-3472 | the sorted result of the query is the ranking if and only if the two comparators put every pair of matching rows the same way round |
| `TopN.WindowsExact` | crates/cq-core/src/query.rs:3460-3486 | for every limit the window is the first page of the query, if and only if they do |
| `TopN.RankedAreLive` | crates/cq-core/src/subscription.rs:727 | no deleted row is ranked if and only if no slot is free or the filter rejects a row of nulls |
| `TopN.TopViewIsResult` | crates/cq-core/src/topic.rs:2662-2690 | with the same pair order, no deleted row ranked, no OFFSET and no computed columns, the subscriber sees what the query returns |
| `TopN.DeletedRowStaysRanked` | crates/cq-core/src/subscription.rs:727-740 | a deleted row that the filter accepts keeps its place in the window |
| `TopN.TimestampsAreNotRanked` | crates/cq-core/src/subscription.rs:64-79 | ordered by a timestamp, the window keeps the lowest slot while the query returns the earliest time |
| `PartialPublishes.WindowUnmoved` | crates/cq-core/src/subscription.rs:746-807 | a mutation leaves what a limited subscriber should see as it was if and only if the row is in the window before and after, or neither, and looks the same if it is; the condition reads the windows themselves, and `PartialPublishes.RankingSkipsExactly` gives one on the row alone for the ranking |
| `PartialPublishes.RankingSkipsExactly` | crates/cq-core/src/subscription.rs:1006-1040 | a limited subscription that is not shown a partial publish keeps a right ranking if and only if the row does not match or its ORDER BY cells are unchanged |
| `PartialPublishes.OrderingUpdateIsSkipped` | crates/cq-core/src/topic.rs:1459-1516 | an update of an ORDER BY column the filter does not read leaves the ranking stale |
| `PartialPublishes.AggregateSkipsExactly` | crates/cq-core/src/subscription.rs:1006-1036 | a continuous aggregate that is not shown a partial publish stays in step if and only if the row does not match, or was a member already, keeps its group, and the group aggregates to what it did; the last part reads the aggregated group, and `PartialPublishes.UnreadKeepsGroup` gives a condition on the query and the supplied columns alone |
| `PartialPublishes.UnreadKeepsGroup` | crates/cq-core/src/subscription.rs:1006-1036 | that is so, whatever the rows hold, whenever no supplied column is grouped by or fed to an aggregate |
| `PartialPublishes.GroupMoveIsSkipped` | crates/cq-core/src/topic.rs:1459-1516 | an update of a GROUP BY column the filter does not read leaves the row in its old group |
| `LiveTopics.FollowOp` | crates/cq-core/src/subscription.rs:518-637 | one publish or delete, with the slot it reuses, leaves the subscription in step with the live rows of the topic, and its deltas carry the client's view along |
| `LiveTopics.FollowOps` | crates/cq-core/src/subscription.rs:518-637 | so does any run of them, and the topic then holds what the operations describe |
| `LiveTopics.RunLive` | crates/cq-core/src/topic.rs:2595-2640 | subscribe to a topic where no live matching row is lost to a zero (`NoneLost`), then publish and delete whole records at will: the snapshot is the aggregate of the topic's live rows then, and with every delta applied it is the aggregate of the live rows the operations leave |
| `Pivot.ComparedExactly` | crates/cq-core/src/pivot.rs:191-251 | bucketing and the row's own value differ on exactly one value, the null 32-bit integer |
| `Pivot.MatchMeaning` | crates/cq-core/src/pivot.rs:191-251 | in a list without repetition a row goes to the column of the literal it is compared as |
| `Pivot.FillBuckets` | crates/cq-core/src/pivot.rs:328-374 | every row surfaces its anchor once, in order of first appearance, and every bucket holds the fold over exactly its rows |
| `Pivot.ExecutePivot` | crates/cq-core/src/pivot.rs:279-415 | one row per anchor of the matching rows, in order of first appearance |
| `Pivot.CellRowsExact` | crates/cq-core/src/pivot.rs:191-251 | a cell folds exactly the matching rows with its anchor and pivot value, if and only if no null of a 32-bit column is taken for the value of its column |
| `Pivot.PivotCell` | crates/cq-core/src/pivot.rs:376-405 | under distinct output labels each cell is its measure folded over exactly those rows |
| `Pivot.AnchorColumn` | crates/cq-core/src/pivot.rs:380-384 | each anchor column shows the anchor's part |
| `Pivot.NullCountsAsSentinel` | crates/cq-core/src/pivot.rs:206-220 | a null 32-bit integer lands in a column for the literal -2147483648 |
| `Pivot.DiscoverValues` | crates/cq-core/src/pivot.rs:103-186 | the discovered values are the non-null pivot values of the matching rows, each once, ascending |
| `Pivot.ExecuteDynamicPivot` | crates/cq-core/src/pivot.rs:286-309 | a dynamic pivot is the static one on the discovered values; none at all gives no rows |
| `Pivot.DynamicCountsConserve` | crates/cq-core/src/pivot.rs:279-415 | the COUNT(*) cells of a dynamic pivot add up to the number of matching rows whose pivot value is not null |
| `JoinKeys.KeyFor` | crates/cq-core/src/query.rs:5045-5064 | the key is the separated text of the USING cells, and absent when some cell is null or of a type that never joins |
| `JoinKeys.DecimalInjective` | crates/cq-core/src/query.rs:5057-5059 | decimal text determines the number |
| `JoinKeys.SameCounts` | crates/cq-core/src/query.rs:5045-5064 | separators are counted: rows with the same key text, one having no fewer separators than the other in any field, are equal field by field |
| `JoinKeys.KeysMatch` | crates/cq-core/src/query.rs:5045-5064 | where one row has no separator in any cell, or both have it in one and the same column only, the rows have the same key if and only if their cells meet: equal strings, equal numbers, or a string that spells the number; column types do not matter |
| `JoinKeys.MeetsIsEqual` | crates/cq-core/src/query.rs:5045-5064 | in columns of one type, cells meet exactly if they are equal and not null |
| `JoinKeys.CrossedCollide` | crates/cq-core/src/query.rs:5045-5064 | where they do face each other so, there are rows of those types with the same key whose cells do not meet |
| `JoinKeys.TwoStringsCollide` | crates/cq-core/src/query.rs:5045-5064 | on any two string columns shared by the tables there are different cells with the same key |
| `JoinKeys.UnambiguousExactly` | crates/cq-core/src/query.rs:5045-5064 | for any USING list, repeated names included, any types of its columns in the left and any in the right table: equal keys always mean cells that meet if and only if no string column of one faces a string column of another name in the other, or some column never joins |
| `JoinKeys.SameTypesExactly` | crates/cq-core/src/query.rs:5045-5064 | for tables of the same USING types, no name repeated: equal keys always mean equal cells if and only if there is at most one string column, or a column that never joins |
| `JoinKeys.UnlikeTypesCollide` | crates/cq-core/src/query.rs:5045-5064 | a string and an integer column on the left, an integer and a string column on the right: two rows with no cell in common have the same key |
| `Joins.HashJoin` | crates/cq-core/src/query.rs:5070-5273 | the hash join emits the nested-loop sequence: all matches of each left row in right order, kept left rows without a match, then kept right rows no left row met |
| `Joins.NestedLoopAre` | crates/cq-core/src/query.rs:5141-5273 | that sequence holds every matching pair, every unmatched kept row, and nothing else |
| `Joins.HashJoinIsNestedLoop` | crates/cq-core/src/query.rs:5045-5273 | for INNER, LEFT, RIGHT and FULL, whatever the types of the USING columns, the join is the nested-loop join on cells that meet, if of every left and right row one has no separator or both have it in one and the same column only |
| `Joins.SchemasJoinExactly` | crates/cq-core/src/query.rs:5045-5273 | for any two schemas and any USING list: the join is the nested-loop join on cells that meet whatever the rows, if and only if no string USING column of one faces a string column of another name in the other, or some USING column never joins |
| `Joins.CrossedJoinsWrongly` | crates/cq-core/src/query.rs:5045-5273 | where they do face each other so, there are rows that join though their cells do not meet |
| `Joins.JoinedCells` | crates/cq-core/src/query.rs:5141-5235 | in the combined table a row shows its left and right cells unchanged, and null on the right if it has no right side |
| `Joins.StoresNullExactly` | crates/cq-core/src/store.rs:544-645 | which cells, put into a null cell of a column of another type, leave it null |
| `Joins.RightOnlyExact` | crates/cq-core/src/query.rs:5239-5273 | a stored right-only row shows null in the left columns not joined on if and only if the right cell under each shared name is stored as null in the left column's type |
| `Joins.RightValueOnTheLeft` | crates/cq-core/src/query.rs:5239-5273 | tables k, n joined on k: a right row without a partner shows its own n in the left n |
| `Joins.PartitionPoint` | crates/cq-core/src/query.rs:5177 | the binary search finds how many entries are not after the time |
| `Joins.AsOfJoin` | crates/cq-core/src/query.rs:5100-5207 | the AS OF join emits, for each left row, its latest candidate if it has one |
| `Joins.AsOfMeaning` | crates/cq-core/src/query.rs:5165-5205 | at most one row per left row, exactly one if and only if some right row of the key has a time at or before; it has the greatest such time, ties going to the later right row |
| `Joins.AsOfCandidates` | crates/cq-core/src/query.rs:5112-5120 | where one of two rows has no separator, or both have it in one and the same column only, the right row is a candidate if and only if the cells meet, both times are not null, and its time is not after the left one |
| `Joins.NullTimeNeverMatches` | crates/cq-core/src/query.rs:5168-5172 | a left row without a time never matches |
| `Joins.ExecuteJoin` | crates/cq-core/src/query.rs:4978-5280 | missing columns are reported, left before right; otherwise the combined table holds the stored rows of the pairs the join kind calls for |

## Left out

- SQL text, name resolution, alias rewriting and view graphs: the model starts from compiled predicates and queries.
- Join and pivot subscription evaluators, and the cap on active rows: they are not part of this model.
- Bodies of row deltas: the text sent for a row is an arbitrary function of the row, and a delta names its record by key, where a real Remove has an empty body.
- Topics without key fields: their queries do not drop deleted rows, and their records never move, so only keyed topics have subscriptions here.
- The full-recompute evaluator of continuous aggregates: only its result is modelled, as the view the incremental path is compared with.
- LAG, LEAD, NTILE and framed window aggregates, UNPIVOT and row projection to JSON: they would only add easy members.
- The query run on a joined table: `Joins.ExecuteJoin` ends with the stored rows of the combined table; what is asked of it is `Executor.ExecuteQuery` without an index.
- Sparse deltas: a delta carries a whole row, so merging the payloads of partial updates is not modelled.
- Interleaving of threads: each mutation is evaluated on the table it produced; the queue between writers and the evaluator, through which it may see a later table, is not modelled.
- Transaction log, bookmarks, replication, persistence to disk, sockets, TLS, time-outs, metrics and limits: I/O or bookkeeping.
- Equality of emitted rows: JSON numbers are compared by bit pattern, while the source takes 0.0 and -0.0 for equal and then emits no update.
- Rounding: binary64 operations are opaque functions, and the laws of variance and percentile are stated over the reals.
- Window columns in row queries: `Executor.ExecuteQuery` ends with the projected rows; `Windows.ApplyWindow` starts from its source rows.
- Int columns in the planner: a comparison leaf on a 32-bit column is compiled to a 64-bit leaf, whose cells the typed column reader takes for 64-bit ones; only a debug assertion stops it (`crates/cq-core/src/store.rs:446-450`), so `Predicates.Fits` excludes it.
- Topics.RunTopic: that the index is in sync is stated one way, because a later update can bring back an index that an earlier one put out of step; `Topics.Topic.Publish` gives the exact condition for one publish.
- RowSubscriptions.RunRows: every mutation is shown to the subscription, as a full publish or delete is; `RowSubscriptions.SkippingExact` states what a partial publish may miss.
- LiveTopics.RunLive: the same holds; `PartialPublishes.AggregateSkipsExactly` states what a partial publish may miss.
- TopN.RunTopN: the same holds, with `PartialPublishes.RankingSkipsExactly`; OFFSET is ignored by the window and computed columns are missing from its rows, so the comparison with the query requires neither.
- LiveAggregates.RunSubscription: requires, at the start and at the end of the run, group keys that do not clash and aliases that leave the group columns visible; in between nothing is required of the keys.
- Joins.HashJoinIsNestedLoop: requires something of the separator in the rows; `Joins.SchemasJoinExactly` states for which schemas nothing need be required of them.
- GroupConflation.RunGroups: stated one way over many windows, because a later window can repair a view that an earlier one spoilt; `GroupConflation.FlushWindow` is exact for each window.
- Tombstones.QueryLive: that the page is the one of the full scan is stated one way, because a row lost to a zero may lie beyond the LIMIT; the page of the offered rows is stated in every case.
- Aggregation.ExecuteAggregate: the same holds of groups, to which a lost row may make no difference; `Aggregation.FindRows` is exact about the rows.
- Conflation.Relay: stated one way over many windows, because a later window can repair a view that an earlier one spoilt; `Conflation.ConflationExact` is exact for each window.
- PublishStores.LocalPublishStore.Record: ids are unbounded; wrap-around of the 64-bit counter is not modelled.
- PublishStores.RunClient: a file that cannot be read back is not a step of the run; the source then starts with an empty buffer.
- Accumulators.SumMeaning: the running sum is unbounded; overflow of 128 bits is not modelled.
- Framing.RoundTripJs: messages are those whose JSON text parses back to them; dispatch into waiting calls is not modelled.
