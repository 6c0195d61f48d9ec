# OCEAN editor core, modelled in Dafny

OCEAN is an editor for object-centric event logs (OCEL). A log has four tables:
events, objects, relations (event-to-object links with a qualifier) and object
changes. This project models the editor's table logic and its object-graph view:

- **Object graph** (`object_graph.dfy`). The frontend builds a node per object type and an
  edge per relation. Parallel edges are fanned out by lateral offsets, edge ids come
  from a running counter, and nodes are placed by an external layout engine. The
  layout engine is a parameter.
- **Paging and records** (`dataframe.dfy`). Covers sorting, page count, page slice,
  and splitting each record into explicit fields plus `metadata`.
- **Filters**:
  - the full event filter with its count and attribute criteria (`event_filters.dfy`);
  - the object filter (`object_filters.dfy`);
  - the simpler event filter of the OCEL service (`ocel_filter.dfy`).
- **Object-to-object rules** (`o2o.dfy`). The operator dispatch, the filtering of
  both sides, the join on equality conditions, the narrowing by the other
  conditions, and the emitted relation records.
- **Upserts** (`upsert_objects.dfy`, `upsert_attributes.dfy`).
  - An outer merge of incoming objects on (id, type), or a left merge of an
    extension table on chosen key pairs.
  - Then the replace policy, the `_new` columns, and the table replaced in the log.
  - The pandas operations they use (`merge`, `rename`, projection, `combine_first`,
    `drop`) are in `merge.dfy`.
- **Overview** (`overview.dfy`). Per-type attribute summaries (numerical min/max or
  nominal samples), per-triple relation count ranges, and the log summary (time
  range, activity counts).
- **pandas utilities** (`pandas_util.dfy`). The column auto-renamer, the `tab:` label
  prefix, `mirror_dataframe`, `concat_dfs`, `series_to_nested_dict` and
  `index_order`.

`tables.dfy` holds the shared data model:

- A cell is a `Value`: missing (NaN/None/NaT), number, string, boolean or timestamp.
- A row maps column labels (a name or an integer position) to cells.
- A `Frame` is a sequence of column labels plus a sequence of rows.
- The log is the class `Ocel`, whose four table fields the operations reassign.

`models.dfy` mirrors the request models (`editor/model/filter.py`,
`editor/model/edit.py`).

Code that changes state step by step is written as methods with loops. This covers:

- the mask narrowing;
- the dictionary and list building;
- the in-place writes into the log's tables and into the node array.

Each method is proved equal to a specification function. The properties are proved
about those functions as lemmas.

Where the program departs from its evident intent (see "## Findings"), the members
that stand for whole source functions model the program as written. The corrected
behaviour is a separate member (`ObjectGraph.PairKey` grouping, `O2O.Corrected`,
`UpsertAttributes.AttributesResult`) that carries the intended properties, and an
agreement lemma says on which inputs the two coincide.

## Model

| member | source | states |
|---|---|---|
| Tables.Select | src/backend/editor/util/filter/events.py:128 | `events[mask]` keeps only rows of the input, never more of them |
| Tables.SelectMembers | src/backend/editor/util/filter/events.py:128 | a row is selected exactly when some position with a true mask entry holds it |
| Tables.SelectAll | src/backend/editor/util/filter/objects.py:37-38 | an all-true mask returns the table unchanged |
| Tables.SelectNone | src/backend/editor/util/filter/events.py:105-106 | an all-false mask returns no rows |
| Tables.SelectIsSubsequence | src/backend/editor/util/filter/objects.py:48 | the selection is an order-preserving subsequence of the input |
| Tables.SelectNarrower | src/backend/editor/util/filter/events.py:98-126 | each `mask &=` step can only remove rows: the narrower selection is a subsequence of the wider one |
| Tables.And | src/backend/editor/util/filter/objects.py:21-28 | `mask &= other` is the pointwise conjunction |
| Tables.Constant | src/backend/editor/util/filter/objects.py:10 | `pd.Series(True, index=...)` is all true, one entry per row |
| Tables.FloorDiv | src/backend/editor/dataframe.py:32 | Python's `//` rounds toward negative infinity: `q*b <= a < q*b + b` for positive `b` |
| Tables.SliceBound | src/backend/editor/dataframe.py:36 | a slice bound is clipped into the sequence and is exact when already inside |
| Tables.PySlice | src/backend/editor/dataframe.py:36 | `iloc[start:end]` for `0 <= start <= end` is the clipped subsequence |
| Tables.DecimalString | src/frontend/components/editor/Graphs/ObjectGraph.tsx:97 | a counter prints as a non-empty string of digits |
| Tables.DecimalRoundTrip | src/frontend/components/editor/Graphs/ObjectGraph.tsx:97 | reading back the printed counter gives the counter |
| Tables.DecimalStringInjective | src/frontend/components/editor/Graphs/ObjectGraph.tsx:97 | different counters print differently, so edge ids are unique |
| Tables.ParseDecimalString | src/backend/editor/util/filter/objects.py:14-17 | `pd.to_numeric` of a printed whole number gives that number back |
| Tables.AsNumber | src/backend/editor/util/filter/objects.py:14-17 | coercion keeps numbers and turns missing values into NaN |
| Tables.CompareToNumber | src/backend/editor/util/filter/events.py:43-49 | an uncoerced column against a number: NaN satisfies only `!=`; ordering a string or timestamp against a number raises; numbers compare as numbers |
| Tables.CompareCells | src/backend/editor/util/edit/o2o.py:10-21 | a comparison of two cells where either is missing holds only for `!=` |
| Models.KnownPrefix | src/backend/editor/util/filter/objects.py:19-28 | the first filter whose column is unknown, which is the one that raises `KeyError`; all earlier filters name columns |
| ObjectGraph.DagreInput | src/frontend/components/editor/Graphs/ObjectGraph.tsx:17-33 | the layout graph runs left to right with node and rank separation 100 and 200, holds one 200x100 node per type entry under its type name, in entry order, and an edge for exactly the (src, target) pairs some relation has |
| ObjectGraph.ObjectAttributesExact | src/frontend/components/editor/Graphs/ObjectGraph.tsx:37-39 | a node's attributes are exactly those with its type and target "object", in input order |
| ObjectGraph.BuildNodes | src/frontend/components/editor/Graphs/ObjectGraph.tsx:35-77 | one node per entry of the type-count record |
| ObjectGraph.ApplyLayout | src/frontend/components/editor/Graphs/ObjectGraph.tsx:115-123 | each node in the array is moved to the layout centre minus half its size when the layout knows it; otherwise it is left alone |
| ObjectGraph.GroupKeysDistinct | src/frontend/components/editor/Graphs/ObjectGraph.tsx:84-89 | each group key is recorded once |
| ObjectGraph.NoRepeatsSnoc | src/frontend/components/editor/Graphs/ObjectGraph.tsx:84-89 | appending a key keeps the keys distinct exactly when the key is new |
| ObjectGraph.TwoGroups | src/frontend/components/editor/Graphs/ObjectGraph.tsx:84-89 | two relations with different keys form two groups of one, in input order |
| ObjectGraph.GroupKeysExact | src/frontend/components/editor/Graphs/ObjectGraph.tsx:84-89 | the group keys are exactly the keys of the relations |
| ObjectGraph.MembersExact | src/frontend/components/editor/Graphs/ObjectGraph.tsx:84-89 | a group holds exactly the relations with its key, in input order |
| ObjectGraph.GroupRelations | src/frontend/components/editor/Graphs/ObjectGraph.tsx:84-89 | the push loop builds the groups and their first-seen key order |
| ObjectGraph.GroupEdges | src/frontend/components/editor/Graphs/ObjectGraph.tsx:92-110 | a group gives one edge per relation |
| ObjectGraph.BuildEdges | src/frontend/components/editor/Graphs/ObjectGraph.tsx:81-111 | the counter loop emits the edges group by group, with ids counting from 0 |
| ObjectGraph.CreateLayoutedGraph | src/frontend/components/editor/Graphs/ObjectGraph.tsx:11-126 | the whole builder, grouping parallel edges by the `${src}->${target}` string as written, equals the specification graph for the layout computed from its input |
| ObjectGraph.LayoutedGraph | src/frontend/components/editor/Graphs/ObjectGraph.tsx:35-123 | one node per type entry and one edge per relation, for any grouping key; the edges' (source, target, label) are a permutation of the relations' (src, target, qualifier) |
| ObjectGraph.GroupOffsetsAsWritten | src/frontend/components/editor/Graphs/ObjectGraph.tsx:84-100 | as written, when no two ordered pairs share a string key, the edges from one type to another are exactly that pair's relations, in input order, with the offsets of a group of their size |
| ObjectGraph.LayoutedEdgesAgree | src/frontend/components/editor/Graphs/ObjectGraph.tsx:84-110 | two grouping keys that put the same relations together produce the same edges |
| ObjectGraph.GroupKeysAgree | src/frontend/components/editor/Graphs/ObjectGraph.tsx:84-89 | under keys that group alike, the two key lists have the same length and their i-th keys are the keys of one relation |
| ObjectGraph.NodesOnePerType | src/frontend/components/editor/Graphs/ObjectGraph.tsx:35-42 | one node per type entry, in entry order, with its id, its count and exactly its object attributes |
| ObjectGraph.NodePosition | src/frontend/components/editor/Graphs/ObjectGraph.tsx:8-9 | a node sits at the layout centre minus (100, 50) when the layout knows it, and at (0, 0) otherwise |
| ObjectGraph.EdgesMatchRelations | src/frontend/components/editor/Graphs/ObjectGraph.tsx:91-111 | exactly one edge per relation: the multiset of (source, target, label) equals that of the relations' (src, target, qualifier), for any key |
| ObjectGraph.DanglingRelationKept | src/frontend/components/editor/Graphs/ObjectGraph.tsx:96-100 | a relation whose endpoints are not node ids still gets its edge |
| ObjectGraph.EdgeIdsSequential | src/frontend/components/editor/Graphs/ObjectGraph.tsx:81-97 | edge ids are "e-0", "e-1", ... in output order, and no two are equal |
| ObjectGraph.GroupOffsets | src/frontend/components/editor/Graphs/ObjectGraph.tsx:92-94 | the edges from one type to another are exactly that ordered pair's relations, in input order, with the offsets of a group of their size |
| ObjectGraph.OffsetsCentred | src/frontend/components/editor/Graphs/ObjectGraph.tsx:92-94 | the offsets sum to 0, increase strictly, mirror each other, span `(n-1)*20`, and a single edge gets 0 |
| ObjectGraph.SameKey | src/frontend/components/editor/Graphs/ObjectGraph.tsx:84-89 | relations sharing one key form one group that holds them all |
| ObjectGraph.ThreeParallelEdges | src/frontend/components/editor/Graphs/ObjectGraph.tsx:92-100 | three relations between the same types fan out as -20, 0, 20 and keep their qualifiers in order |
| ObjectGraph.StringKeyMergesDistinctPairs | src/frontend/components/editor/Graphs/ObjectGraph.tsx:86 | the template-string key merges two different ordered pairs whose type names contain "->"; the pair key does not |
| ObjectGraph.StringKeyFansOut | src/frontend/components/editor/Graphs/ObjectGraph.tsx:86-94 | as written, "a->b" to "c" and "a" to "b->c" share a key, so their edges fan out as -10 and 10 |
| ObjectGraph.PairKeySeparates | src/frontend/components/editor/Graphs/ObjectGraph.tsx:86-94 | grouped by the ordered pair, the same two relations form two groups, each edge at offset 0 |
| Dataframe.Sorted | src/backend/editor/dataframe.py:28-30 | the rows keep their order unless the sort names an existing column |
| Dataframe.PageNumber | src/backend/editor/dataframe.py:33 | the page is at least 1 and is the requested page when that is positive |
| Dataframe.PaginatedDataframe | src/backend/editor/dataframe.py:21-44 | a page size of 0 raises `ZeroDivisionError`, and only then; the response carries the clamped page, the transformed page of the sorted rows, and the page count `TotalPages` of the sorted rows, which for a positive page size is the fewest pages that hold them |
| Dataframe.TotalPagesIsCeiling | src/backend/editor/dataframe.py:32 | the page count is the ceiling of rows / page size |
| Dataframe.PageContents | src/backend/editor/dataframe.py:34-36 | a page holds rows `[(p-1)*ps, p*ps)` clipped to the table: at most `ps` rows, none past the last page |
| Dataframe.FirstPagesPrefix | src/backend/editor/dataframe.py:34-36 | pages 1 to k together are the first `k*ps` rows |
| Dataframe.PagesCoverRows | src/backend/editor/dataframe.py:32-36 | pages 1 to the page count, in order, give every row exactly once |
| Dataframe.FirstMissing | src/backend/editor/dataframe.py:62 | the first explicit field the record lacks (the `KeyError`), or none exactly when all are present |
| Dataframe.RecordToModel | src/backend/editor/dataframe.py:62-63 | `KeyError` exactly when an explicit field is missing from the record, naming a missing one |
| Dataframe.RecordSplit | src/backend/editor/dataframe.py:62-63 | explicit fields go to the top level with their values, every other column to `metadata` with its value, none to both |
| Dataframe.ToModelsPerRecord | src/backend/editor/dataframe.py:59-67 | one model per record, in record order, or the error of the first record that lacks a field |
| Dataframe.ToModels | src/backend/editor/dataframe.py:59-67 | one model per record on success; a failure is a `KeyError` |
| Dataframe.DataframeToModel | src/backend/editor/dataframe.py:54-67 | the append loop equals the specification |
| Dataframe.ToModelsStopsAtError | src/backend/editor/dataframe.py:61-65 | once a record fails, the whole conversion fails with its error |
| Dataframe.ToModelsFails | src/backend/editor/dataframe.py:59-63 | the conversion fails exactly when there is a row and some explicit field is not a column |
| EventFilters.FilterByObjectCount | src/backend/editor/util/filter/events.py:11-32 | the mask loop returns exactly the events that pass every count filter |
| EventFilters.TypeCountPositive | src/backend/editor/util/filter/events.py:12-16 | a count is positive exactly when some keyed relation links the event to the type |
| EventFilters.UnrelatedTypeCountsZero | src/backend/editor/util/filter/events.py:15-27 | a type the event is not related to counts 0: it passes "eq 0" and every "lt" of a non-negative value, and fails "gt" above 0 |
| EventFilters.AbsentTypeRejectsAll | src/backend/editor/util/filter/events.py:28-29 | a count filter on a type no relation has rejects every event |
| EventFilters.CountMatchingRelated | src/backend/editor/util/filter/events.py:17-32 | only events that occur in a keyed relation can be returned |
| EventFilters.ObjectMask | src/backend/editor/util/filter/events.py:40-52 | an unknown column raises `KeyError`; a mask has one entry per object |
| EventFilters.OkPrefix | src/backend/editor/util/filter/events.py:39-56 | the first filter that raises; all earlier ones evaluate |
| EventFilters.WriteColumnsCells | src/backend/editor/util/filter/events.py:54-56 | writing column `j` into the relations keeps their ids, and the cell is whether the row's object passes filter `j` |
| EventFilters.AnyTrueIffRelated | src/backend/editor/util/filter/events.py:58 | column `j` is true in some row of an event exactly when one of its relations points at an object passing filter `j` |
| EventFilters.AllColumnsIffAllFilters | src/backend/editor/util/filter/events.py:61 | an event passes all columns exactly when it passes all filters through its related objects |
| EventFilters.AnyAllIsRelatedPassing | src/backend/editor/util/filter/events.py:58-63 | the group-any-all is exactly "every filter is passed by some related object" |
| EventFilters.FilterByObjectAttributesValues | src/backend/editor/util/filter/events.py:35-63 | the relations table gets the columns of the filters that evaluate, in place; the other tables are untouched; the result is the first exception or the events passing every filter through a related object |
| EventFilters.FilterMaskByEventAttributes | src/backend/editor/util/filter/events.py:66-85 | `KeyError` for the first unknown column; otherwise an event passes exactly when every filter holds (coerced inclusive comparison, or membership) |
| EventFilters.NarrowByTime | src/backend/editor/util/filter/events.py:98-103 | the mask becomes the old mask and the inclusive time span |
| EventFilters.NarrowByActivity | src/backend/editor/util/filter/events.py:105-106 | the mask becomes the old mask and the activity criterion |
| EventFilters.NarrowByTypes | src/backend/editor/util/filter/events.py:108-112 | the mask becomes the old mask and the related-type criterion |
| EventFilters.NarrowByCounts | src/backend/editor/util/filter/events.py:114-116 | the mask becomes the old mask and the count criterion |
| EventFilters.BaseFilterMask | src/backend/editor/util/filter/events.py:92-116 | the criteria that cannot raise, narrowed one after the other |
| EventFilters.ApplyEventFilter | src/backend/editor/util/filter/events.py:88-128 | the result is the specification's; the relations are written only when attribute-value filters are given; events and objects are untouched |
| EventFilters.FilterMaskPointwise | src/backend/editor/util/filter/events.py:118-126 | on a log with the standard OCEL columns, the filter fails exactly when an active attribute criterion raises; otherwise an event is kept exactly when it passes every active criterion |
| EventFilters.EventFilterSelects | src/backend/editor/util/filter/events.py:128 | the result keeps the columns and is an order-preserving selection of exactly the events that pass |
| EventFilters.EventFilterResult | src/backend/editor/util/filter/events.py:88-128 | a successful filter keeps the event columns and returns no more rows than there are events |
| EventFilters.NoCriteriaKeepsAll | src/backend/editor/util/filter/events.py:92-128 | a filter with no criteria returns the events as they are |
| EventFilters.EmptyActivitiesKeepNothing | src/backend/editor/util/filter/events.py:105-106 | an empty activity list keeps no event |
| EventFilters.EmptyTypesRestrictNothing | src/backend/editor/util/filter/events.py:108 | an empty type list acts as no list |
| EventFilters.TimeBoundsInclusive | src/backend/editor/util/filter/events.py:98-103 | both time bounds are inclusive, and an event without a timestamp fails them |
| EventFilters.CriteriaOnlyRemove | src/backend/editor/util/filter/events.py:98-126 | adding criteria selects an order-preserving subsequence of what was selected before |
| ObjectFilters.AttributeMask | src/backend/editor/util/filter/objects.py:9-30 | a mask has one entry per object |
| ObjectFilters.FilterMaskByObjectAttributes | src/backend/editor/util/filter/objects.py:9-30 | `KeyError` for the first unknown column; otherwise an object passes exactly when every filter holds (strict coerced comparison, or membership); no filters give an all-true mask |
| ObjectFilters.ObjectFilterMask | src/backend/editor/util/filter/objects.py:33-48 | a mask has one entry per object |
| ObjectFilters.ApplyObjectFilter | src/backend/editor/util/filter/objects.py:33-48 | the narrowing steps equal the specification |
| ObjectFilters.ObjectFilterSelects | src/backend/editor/util/filter/objects.py:41-48 | on an object table with the type column, fails exactly when an attribute filter names an unknown column; otherwise keeps the columns and, in order, exactly the objects of a listed type (any type for a missing or empty list) that pass every attribute filter |
| ObjectFilters.ObjectFilterResult | src/backend/editor/util/filter/objects.py:33-48 | no filter returns the objects as they are; a successful filter keeps the columns and returns no more rows |
| ObjectFilters.ComparisonsStrict | src/backend/editor/util/filter/objects.py:19-25 | a value equal to the bound passes "eq" and fails both "gt" and "lt" |
| ObjectFilters.NonNumericFails | src/backend/editor/util/filter/objects.py:14-17 | a value that does not coerce fails every numerical filter |
| ObjectFilters.EmptyListsRestrictNothing | src/backend/editor/util/filter/objects.py:41-46 | empty or missing type and attribute lists keep every object |
| OcelFilter.KeepMask | src/backend/editor/ocel.py:13 | a mask has one entry per event |
| OcelFilter.ApplyEventFilter | src/backend/editor/ocel.py:9-25 | the narrowing steps give `events[mask]` for the specification mask |
| OcelFilter.KeptRows | src/backend/editor/ocel.py:25 | an order-preserving subsequence holding exactly the events that pass |
| OcelFilter.NoCriteriaKeepsAll | src/backend/editor/ocel.py:13-25 | no bounds and no activity list keep every event |
| OcelFilter.EmptyActivitiesKeepNothing | src/backend/editor/ocel.py:22-23 | an empty activity list keeps nothing |
| OcelFilter.ActivitiesOnlyRemove | src/backend/editor/ocel.py:22-23 | adding the activity criterion gives a subsequence of the result without it |
| OcelFilter.BoundsInclusive | src/backend/editor/ocel.py:15-20 | an event exactly at both bounds is kept |
| O2O.CmpOf | src/backend/editor/util/edit/o2o.py:10-21 | only the six comparison operators name a comparison |
| O2O.RowOperator | src/backend/editor/util/edit/o2o.py:9-26 | `ValueError` exactly for an unsupported operator; "contains" is substring containment of string forms |
| O2O.ApplyOperator | src/backend/editor/util/edit/o2o.py:9-26 | one result per row, each the row operator's; fails exactly for an unsupported operator or a row that cannot be ordered |
| O2O.SeriesRepr | src/backend/editor/util/edit/o2o.py:23 | the printed column is at least as long as its footer |
| O2O.SearchColumn | src/backend/editor/util/edit/o2o.py:23 | `str.contains` with its default regular-expression reading: an error exactly when the pattern holds a metacharacter and does not compile; a pattern without metacharacters is a substring test on each row; one result per row |
| O2O.ReprLiteral | src/backend/editor/util/edit/o2o.py:23 | a column whose values and name hold no metacharacter prints without one |
| O2O.ApplyOperatorAsWritten | src/backend/editor/util/edit/o2o.py:22-25 | as written: "regex" raises `TypeError` because the pattern is a column; "contains" searches each left string for the printed right column as a regular expression, and fails when that pattern does not compile; the six comparisons are the corrected ones; one result per row on success |
| O2O.AsWrittenContainsNeedsLongValues | src/backend/editor/util/edit/o2o.py:23 | as written, when the printed right column holds no regular-expression metacharacter, "contains" succeeds and holds only for left values at least as long as that printed column |
| O2O.ContainsAsWrittenMissesSubstring | src/backend/editor/util/edit/o2o.py:22-25 | "abc" contains "b" under the corrected operator but not as written; "regex" as written raises where the corrected one matches |
| O2O.ContainsElementwise | src/backend/editor/util/edit/o2o.py:22-23 | the corrected "contains" never raises and holds row by row exactly when the left string contains the right |
| O2O.NegatedOperators | src/backend/editor/util/edit/o2o.py:10-21 | "==" and "!=" never raise and negate each other; without missing cells "<"/">=" and ">"/"<=" negate each other; a missing cell fails all four |
| O2O.StrLessTotal | src/backend/editor/util/edit/o2o.py:14-21 | distinct strings are ordered one way or the other |
| O2O.SideFilter | src/backend/editor/util/edit/o2o.py:34-40 | an explicit side filter is used as given |
| O2O.ConditionsPartition | src/backend/editor/util/edit/o2o.py:45-46 | every condition lands in exactly one list: equalities in the first, the rest in the second |
| O2O.JoinMembers | src/backend/editor/util/edit/o2o.py:48-60 | the merged rows are exactly the key-matching source/target pairs |
| O2O.CrossJoinSize | src/backend/editor/util/edit/o2o.py:55-60 | without equality conditions every source row meets every target row |
| O2O.MergeKeyError | src/backend/editor/util/edit/o2o.py:49-54 | the merge raises `KeyError` exactly when a key is not a column of its side, naming the first such condition's target key if it is absent and otherwise its source key |
| O2O.TargetKeyReportedFirst | src/backend/editor/util/edit/o2o.py:49-54 | a condition with both keys absent reports the target key |
| O2O.ConditionMask | src/backend/editor/util/edit/o2o.py:67-70 | `merged[a_src]` and `merged[b_tgt]` raise `KeyError` unless the merge suffixed both attributes (a column of both sides that no same-name equality key collapsed); otherwise one entry per merged row, under the corrected operator the truth of the condition |
| O2O.JoinMask | src/backend/editor/util/edit/o2o.py:65-70 | the mask after all remaining conditions succeeds exactly when each condition's column lookup and operator succeed, has one entry per merged row and, for the corrected operator, is true exactly where every condition holds |
| O2O.JoinMaskAgrees | src/backend/editor/util/edit/o2o.py:65-70 | with no "contains" or "regex" condition, the mask as written equals the corrected one |
| O2O.NarrowMask | src/backend/editor/util/edit/o2o.py:65-70 | the condition loop, with the operator as written, yields `JoinMask` as written: the narrowed mask or the first exception |
| O2O.JoinResult | src/backend/editor/util/edit/o2o.py:45-86 | after the merge: a non-empty result only when the merge suffixed the object id column, and never more records than key-matching pairs |
| O2O.O2OResult | src/backend/editor/util/edit/o2o.py:29-86 | a non-empty result only when both side filters succeed and the object id column was suffixed |
| O2O.ApplyO2ORule | src/backend/editor/util/edit/o2o.py:29-86 | the steps of the rule as written (filters, empty checks, merge with its same-name key collapse, narrowing with the operator as written, the id projection and its `KeyError`) equal `O2OResult` as written |
| O2O.O2ORecordsAreRelatedPairs | src/backend/editor/util/edit/o2o.py:42-86 | for the corrected operator, a successful rule emits exactly the related pairs, each as a record with both object ids and the rule's relation type |
| O2O.AsWrittenAgrees | src/backend/editor/util/edit/o2o.py:9-86 | a rule without "contains" or "regex" conditions gives the same result as written as with the corrected operator |
| O2O.AsWrittenRecordsAreRelatedPairs | src/backend/editor/util/edit/o2o.py:42-86 | as written, a successful rule without "contains" or "regex" conditions emits exactly the related pairs, each as a record with both object ids and the rule's relation type |
| O2O.DefaultSide | src/backend/editor/util/edit/o2o.py:34-40 | without an explicit filter a side holds exactly the objects of the rule's type |
| O2O.EmptySideGivesNothing | src/backend/editor/util/edit/o2o.py:42-43 | an empty side gives no records |
| O2O.OnlyKeysKeepsMerge | src/backend/editor/util/edit/o2o.py:48-86 | with only equality conditions, every merged row is emitted when the merge suffixed the object id column; when an id-to-id key collapsed it, a non-empty merge raises `KeyError` |
| Merge.MissingColumn | src/backend/editor/util/edit/objects.py:21-22 | the first wanted label that is not a column, or none when all are |
| Merge.SetCellsIn | src/backend/editor/util/edit/objects.py:23-31 | a written label holds the value of its last occurrence |
| Merge.Project | src/backend/editor/util/edit/objects.py:21-22 | `df[cols]` gives the listed columns, or `KeyError` for the first missing one |
| Merge.RenameLabel | src/backend/editor/util/edit/objects.py:23-31 | `dict(pairs)`: the last pair naming a column decides its label; an unnamed column keeps its label |
| Merge.RenameLastPair | src/backend/editor/util/edit/objects.py:24-30 | a column named by a pair that no later pair names gets that pair's new name |
| Merge.Rename | src/backend/editor/util/edit/objects.py:23-31 | renaming keeps the row count and relabels the columns as `RenameLabel` says |
| Merge.RenamedCell | src/backend/editor/util/edit/objects.py:23-31 | a column whose new label no other column takes carries its value there |
| Merge.MissingKeyPair | src/backend/editor/util/edit/objects.py:34-39 | none exactly when every key pair is present on its sides; otherwise the label of the first incomplete pair, its right label when that is absent |
| Merge.MergeFrames | src/backend/editor/util/edit/objects.py:34-39 | `merge` on the key columns with suffixes ("", "_new"); `ValueError` for key lists of different lengths, otherwise `KeyError` exactly when a key is not a column, naming the label `MissingKeyPair` gives |
| Merge.RightKeyReportedFirst | src/backend/editor/util/edit/objects.py:34-39 | with both keys of a pair absent, the right one is reported |
| Merge.RightLabelsApart | src/backend/editor/util/edit/objects.py:38 | the suffixed right labels do not clash with left columns |
| Merge.LeftCells | src/backend/editor/util/edit/attributes.py:20-26 | a merged row holds its left row's value in every left column |
| Merge.UnmatchedRightCells | src/backend/editor/util/edit/attributes.py:20-26 | a left row that meets nothing has every right label missing |
| Merge.LeftRowKept | src/backend/editor/util/edit/attributes.py:20-26 | every left row survives with all its values |
| Merge.RightKeysKept | src/backend/editor/util/edit/objects.py:34-39 | an outer merge keeps every right row's keys |
| Merge.LeftMergeOneToOne | src/backend/editor/util/edit/attributes.py:20-26 | when every left row meets at most one right row, a left merge gives one row per left row, in order, with its values |
| Merge.CombineFirst | src/backend/editor/util/edit/objects.py:49-55 | `a.combine_first(b)` is `a` unless `a` is missing |
| Merge.Resolve | src/backend/editor/util/edit/objects.py:48-55 | with replace a present new value wins; otherwise a present old value wins |
| Merge.ResolveIdempotent | src/backend/editor/util/edit/objects.py:48-55 | resolving against an already resolved value changes nothing |
| Merge.Update | src/backend/editor/util/edit/objects.py:47-55 | when `<c>_new` exists, `c` becomes the resolved value row by row; otherwise nothing changes |
| Merge.UpdateTwice | src/backend/editor/util/edit/objects.py:42-46 | updating a column twice equals updating it once |
| Merge.UpdateAll | src/backend/editor/util/edit/attributes.py:28-33 | the updates in order, stopping at the first `KeyError` |
| Merge.UpdateAllCell | src/backend/editor/util/edit/attributes.py:28-33 | after the updates, an updated column holds its row's resolved value when its `_new` column exists and its old value otherwise; repeats resolve once |
| Merge.Drop | src/backend/editor/util/edit/objects.py:58-64 | `drop(columns=...)` removes exactly the listed columns, or raises `KeyError` for one that is absent |
| UpsertObjects.WithTypeColumn | src/backend/editor/util/edit/objects.py:17-18 | a table without the type column gets it, filled with the field's name |
| UpsertObjects.IncomingColumns | src/backend/editor/util/edit/objects.py:21-22 | the sources of the added attributes, then id and type |
| UpsertObjects.Targets | src/backend/editor/util/edit/objects.py:43 | the new names of the added attributes, in order |
| UpsertObjects.Dedup | src/backend/editor/util/edit/objects.py:42-46 | each name once, in order of first occurrence |
| UpsertObjects.StaleColumns | src/backend/editor/util/edit/objects.py:58-64 | the `_new` columns of the added attributes that are present |
| UpsertObjects.UpdateTargets | src/backend/editor/util/edit/objects.py:42-55 | the `seen_cols` loop equals the updates of the deduplicated names |
| UpsertObjects.UpsertResult | src/backend/editor/util/edit/objects.py:21-64 | a successful upsert leaves no `_new` column of an added attribute |
| UpsertObjects.UpsertedObjects | src/backend/editor/util/edit/objects.py:21-64 | selecting, renaming, merging, updating and dropping yield exactly `UpsertResult`, the new object table, or its error |
| UpsertObjects.Upsert | src/backend/editor/util/edit/objects.py:6-70 | the caller's table gains the type column; the objects become the specification result, or stay as they were on an error; the other tables are untouched |
| UpsertObjects.SuffixedNotKey | src/backend/editor/util/edit/objects.py:38 | a `_new` label is never an OCEL key column |
| UpsertObjects.KeysSurviveUpdates | src/backend/editor/util/edit/objects.py:42-64 | the updates and the drop keep every row and its key cells |
| UpsertObjects.UpdatesKeepKeys | src/backend/editor/util/edit/objects.py:42-55 | updating the target columns leaves every row's id and type cells as they were |
| UpsertObjects.StaleNotKeys | src/backend/editor/util/edit/objects.py:58-64 | the dropped `_new` columns never include the id or type column |
| UpsertObjects.ExistingKeysKept | src/backend/editor/util/edit/objects.py:34-39 | every existing object keeps its (id, type) key in the new table |
| UpsertObjects.RenamedKeys | src/backend/editor/util/edit/objects.py:23-31 | the renamed row carries the id field as object id and the type field as object type |
| UpsertObjects.AddedLabelNotKey | src/backend/editor/util/edit/objects.py:23-31 | an added attribute is never renamed onto an OCEL key |
| UpsertObjects.MergedIncomingKeys | src/backend/editor/util/edit/objects.py:34-39 | the outer merge keeps every incoming row's keys |
| UpsertObjects.IncomingRowKeys | src/backend/editor/util/edit/objects.py:21-31 | a selected and renamed incoming row carries its id and type as keys |
| UpsertObjects.IncomingKeysKept | src/backend/editor/util/edit/objects.py:34-64 | every incoming row's (id, type) appears as a key of the new table |
| UpsertObjects.EachTargetOnce | src/backend/editor/util/edit/objects.py:42-46 | repeating an added attribute does not repeat its update |
| UpsertObjects.MatchedObjectResolved | src/backend/editor/util/edit/objects.py:34-64 | an existing object that an incoming row describes keeps a row in which each added attribute follows the replace policy (with replace a present incoming value wins, otherwise a present old value wins) and every other column keeps its old value |
| UpsertObjects.IncomingObjectInserted | src/backend/editor/util/edit/objects.py:34-64 | an incoming object no existing row describes is inserted with its keys and the incoming values of its added attributes |
| UpsertAttributes.ExtensionColumns | src/backend/editor/util/edit/attributes.py:16-17 | the sources of the added attributes, then the extension side of each key pair |
| UpsertAttributes.JoinKeys | src/backend/editor/util/edit/attributes.py:22-23 | the target table joins on the second of each pair, the extension on the first |
| UpsertAttributes.KeyDropsAsWritten | src/backend/editor/util/edit/attributes.py:38 | the extension key columns paired with a differently named target column, under their own names |
| UpsertAttributes.KeyDrops | src/backend/editor/util/edit/attributes.py:38 | the same columns under the label the merge gave them |
| UpsertAttributes.UpdateColumns | src/backend/editor/util/edit/attributes.py:28-33 | the loop equals the updates of every added attribute, repeats included |
| UpsertAttributes.AttributesResultAsWritten | src/backend/editor/util/edit/attributes.py:16-39 | as written, a successful upsert leaves no `_new` column of an added attribute and no differently paired extension key under its own name |
| UpsertAttributes.AttributesResult | src/backend/editor/util/edit/attributes.py:16-39 | with the corrected drop, no `_new` column of an added attribute and no differently paired extension key under the label the merge gave it |
| UpsertAttributes.UpsertedTable | src/backend/editor/util/edit/attributes.py:16-39 | extending, merging, updating and dropping as written yield exactly `AttributesResultAsWritten` or its error |
| UpsertAttributes.Upsert | src/backend/editor/util/edit/attributes.py:6-44 | only the chosen table is replaced, by the result as written; on an error nothing changes; relations and object changes are untouched |
| UpsertAttributes.ResultStages | src/backend/editor/util/edit/attributes.py:16-39 | a successful upsert went through a successful selection, merge, update and drop |
| UpsertAttributes.TargetColumnsKept | src/backend/editor/util/edit/attributes.py:34-39 | the corrected drop keeps every column of the target table |
| UpsertAttributes.UpdatesKeepUnmatched | src/backend/editor/util/edit/attributes.py:28-33 | the updates leave a row alone when its merge-added cells are all missing |
| UpsertAttributes.UnmatchedMergedRow | src/backend/editor/util/edit/attributes.py:20-26 | a target row that meets no extension row keeps its values, with every added column missing |
| UpsertAttributes.UnmatchedRowKept | src/backend/editor/util/edit/attributes.py:20-39 | for the corrected drop, a target row that meets no extension row keeps all its values in the result |
| UpsertAttributes.OneRowPerTarget | src/backend/editor/util/edit/attributes.py:20-39 | for the corrected drop, when no target row meets two extension rows and the labels do not clash: one row per target row, in order, each keeping the row's values in every surviving column that no added attribute targets |
| UpsertAttributes.MatchedRowResolved | src/backend/editor/util/edit/attributes.py:20-39 | for the corrected drop, a target row that matches an extension row on every key pair leaves a row in which each added attribute follows the replace policy and every other target column keeps its value |
| UpsertAttributes.AsWrittenAgrees | src/backend/editor/util/edit/attributes.py:34-39 | when no differently paired extension key is also a column of the target, the drop as written and the corrected drop give the same result |
| UpsertAttributes.NameKeyedMerge | src/backend/editor/util/edit/attributes.py:20-26 | joining an extension's "name" to the object id of a table with its own "name" brings the key in as "name_new" |
| UpsertAttributes.KeyDropRemovesTargetColumn | src/backend/editor/util/edit/attributes.py:38 | as written, the drop removes the target's own "name" and keeps "name_new" |
| UpsertAttributes.CorrectedKeyDropKeepsTargetColumn | src/backend/editor/util/edit/attributes.py:38 | the corrected drop keeps the target's "name" and removes "name_new" |
| Overview.Distinct | src/backend/editor/util/overview.py:82 | `unique()` gives each value of the input once and no other value |
| Overview.DistinctCardinality | src/backend/editor/util/overview.py:87 | a sequence without repeats has as many elements as its set |
| Overview.MinReal | src/backend/editor/util/overview.py:78 | the minimum is one of the values and below all of them |
| Overview.MaxReal | src/backend/editor/util/overview.py:79 | the maximum is one of the values and above all of them |
| Overview.MinInt | src/backend/editor/util/overview.py:78 | the minimum of whole numbers, taken through the real minimum, is one of them and below all of them |
| Overview.MaxInt | src/backend/editor/util/overview.py:79 | the maximum of whole numbers, taken through the real maximum, is one of them and above all of them |
| Overview.Unnull | src/backend/editor/util/overview.py:51-53 | the string "null" becomes missing; every other cell stays |
| Overview.ColumnsIn | src/backend/editor/util/overview.py:38-41 | the attribute names that are columns of the table, in order |
| Overview.MeltColumn | src/backend/editor/util/overview.py:44-49 | one record per row whose value is present |
| Overview.Melt | src/backend/editor/util/overview.py:44-49 | melting column by column keeps only present values |
| Overview.GroupKeys | src/backend/editor/util/overview.py:60 | the (type, attribute) groups, each once, those with a missing type excluded |
| Overview.GroupValues | src/backend/editor/util/overview.py:62-63 | the values of one group, in order |
| Overview.GroupNonEmpty | src/backend/editor/util/overview.py:60-63 | an existing group has a value |
| Overview.Summarize | src/backend/editor/util/overview.py:68-88 | names its attribute, and is numerical exactly when there is a value and every value coerces to a number |
| Overview.NumericalSummary | src/backend/editor/util/overview.py:74-80 | a numerical summary is the least and greatest value, so min <= max |
| Overview.NominalSummary | src/backend/editor/util/overview.py:81-88 | a nominal summary samples the first `max_unique` distinct values, each once, and counts all distinct values, at least as many as the sample |
| Overview.SummariesForAttributes | src/backend/editor/util/overview.py:62-90 | a type's summaries name exactly the attributes grouped under it |
| Overview.NoGroupsNoSummaries | src/backend/editor/util/overview.py:62-90 | a type without groups has no summaries |
| Overview.TypeOrder | src/backend/editor/util/overview.py:65-90 | the types in order of insertion into the dictionary, each once |
| Overview.TypeSummaries | src/backend/editor/util/overview.py:92-95 | one summary per type, in type order |
| Overview.TypeStepOrder | src/backend/editor/util/overview.py:65-90 | one more group adds its type at the end of the insertion order when the type is new |
| Overview.TypeStepSummaries | src/backend/editor/util/overview.py:65-90 | one more group appends its summary to its type's list; a new type's list holds just that summary |
| Overview.DomainStep | src/backend/editor/util/overview.py:65-66 | the dictionary's keys stay exactly the types in the insertion order |
| Overview.GroupByType | src/backend/editor/util/overview.py:58-95 | the dictionary loop equals the specification |
| Overview.SummarizeObjectAttributes | src/backend/editor/util/overview.py:31-95 | the whole function equals the specification |
| Overview.ObjectSummaries | src/backend/editor/util/overview.py:31-95 | `KeyError` for the type column exactly when either table lacks it; otherwise one summary per object type that has a present value, each once |
| Overview.SummariesForDistinct | src/backend/editor/util/overview.py:60-90 | within a type each attribute is summarised once |
| Overview.MetadataClean | src/backend/editor/util/overview.py:44-56 | a melted record holds no missing value and no "null", its type is not "null", and its attribute is an attribute name |
| Overview.ObjectTypesOnce | src/backend/editor/util/overview.py:58-95 | one summary per object type that has a present value, and none for any other |
| Overview.ObjectAttributesOnce | src/backend/editor/util/overview.py:58-95 | under each type, exactly the attributes recorded for it, each once |
| Overview.Quads | src/backend/editor/util/overview.py:112-119 | the keys of the relations that fall in a group |
| Overview.CountsNonEmpty | src/backend/editor/util/overview.py:121-125 | a triple some key has has at least one group size |
| Overview.Triples | src/backend/editor/util/overview.py:121-122 | the distinct (qualifier, activity, type) triples, each once |
| Overview.RelationCountBounds | src/backend/editor/util/overview.py:112-128 | 1 <= min_count <= max_count, both the size of some group of the triple, and every group's size in between |
| Overview.RelationTriplesOnce | src/backend/editor/util/overview.py:121-139 | one summary per triple of the relations, and none for any other |
| Overview.RelationMetadata | src/backend/editor/util/overview.py:106-140 | `KeyError` exactly when one of the four grouping columns is missing, naming a missing one; otherwise exactly one summary per (qualifier, activity, type) triple of the grouped relations |
| Overview.Present | src/backend/editor/util/overview.py:159 | `dropna()` keeps exactly the present cells, each as often as it occurs |
| Overview.TimeRange | src/backend/editor/util/overview.py:158-162 | absent exactly when no event has a timestamp; otherwise start <= end, both attained, bounding every timestamp |
| Overview.ActivityCountsSize | src/backend/editor/util/overview.py:164-168 | one entry per distinct present activity |
| Overview.ActivityCounts | src/backend/editor/util/overview.py:164-168 | every entry counts the events of one present activity, at least one |
| Overview.ActivityCountsComplete | src/backend/editor/util/overview.py:164-168 | every present activity has its entry with its number of events |
| Overview.ActivityCountsTotal | src/backend/editor/util/overview.py:164-168 | the counts add up to the number of events with an activity |
| Overview.OcelInformationParts | src/backend/editor/util/overview.py:156-180 | the summary exists exactly when every table has the columns read, and is made of the time range, the activity counts, the object summaries and the relation summaries |
| Overview.OcelInformation | src/backend/editor/util/overview.py:156-180 | an error is a `KeyError`; the start exists exactly when some event has a timestamp, and then start <= end bound every timestamp |
| PandasUtil.Split | src/backend/util/pandas.py:81 | `split` gives at least one piece, none containing the separator |
| PandasUtil.JoinSplit | src/backend/util/pandas.py:81-83 | joining the pieces with the separator gives the string back |
| PandasUtil.JoinSpaced | src/backend/util/pandas.py:81-83 | joining the pieces with spaces replaces each `_` by a space |
| PandasUtil.AutoRenameShape | src/backend/util/pandas.py:78-83 | outside the common columns, the first word capitalised, then the rest with each `_` a space |
| PandasUtil.AutoRenameSpelledOut | src/backend/util/pandas.py:78-83 | the common columns map to their display names; otherwise the result is the label character by character, with each `_` a space and no `_` left |
| PandasUtil.ColumnRenamer | src/backend/util/pandas.py:85-99 | every column gets a display name; the given names win over the automatic ones |
| PandasUtil.TableLabel | src/backend/util/pandas.py:177-178 | the label gets `tab:` unless it has it: it always starts with `tab:` and is unchanged exactly when it already did |
| PandasUtil.TableLabelIdempotent | src/backend/util/pandas.py:177-178 | prefixing twice is prefixing once |
| PandasUtil.TwinInvolution | src/backend/util/pandas.py:615-620 | swapping suffixes twice gives the label back |
| PandasUtil.FirstSome | src/backend/util/pandas.py:613-626 | a pass fails with the error of its first failing column, and only when one fails |
| PandasUtil.FirstChecks | src/backend/util/pandas.py:613-618 | a non-string label raises `AttributeError`; a `suffix1` column without its twin raises `ValueError` |
| PandasUtil.SecondChecks | src/backend/util/pandas.py:621-626 | a `suffix2` column without its twin raises `ValueError` |
| PandasUtil.Mirrored | src/backend/util/pandas.py:593-627 | nested suffixes raise `NotImplementedError`; then the errors of the two passes; otherwise the same columns in the same order |
| PandasUtil.MirroredOk | src/backend/util/pandas.py:600-626 | mirroring succeeds exactly when the suffixes are not nested, every label is a string and every suffixed column has its twin |
| PandasUtil.MirroredSwapsPairs | src/backend/util/pandas.py:613-627 | a `suffix1` column holds what its twin held and vice versa; other columns keep their values |
| PandasUtil.MirroredTwice | src/backend/util/pandas.py:593-627 | mirroring a mirrored frame gives the frame back |
| PandasUtil.FillRenamer | src/backend/util/pandas.py:612-620 | the first loop fills the renamer both ways, stopping at the first failing column |
| PandasUtil.PairedAdd | src/backend/util/pandas.py:619-620 | recording a column and its twin both ways keeps every entry mapped to its twin, whose entry is present too |
| PandasUtil.CheckTwins | src/backend/util/pandas.py:621-626 | the second loop fails exactly at the first `suffix2` column without its twin |
| PandasUtil.RenamerIsTwin | src/backend/util/pandas.py:612-627 | when both loops pass, the renamer sends every suffixed column to its twin |
| PandasUtil.MirrorDataframe | src/backend/util/pandas.py:593-627 | the loops and the rename equal the specification |
| PandasUtil.NewColumns | src/backend/util/pandas.py:642 | the columns not yet collected, in order |
| PandasUtil.ColumnUnionMembers | src/backend/util/pandas.py:638-642 | the collected columns are those of the frames that are present |
| PandasUtil.ColumnUnionDistinct | src/backend/util/pandas.py:638-642 | each column is collected once |
| PandasUtil.Kept | src/backend/util/pandas.py:643 | the frames that are present and not empty, in order |
| PandasUtil.Reindex | src/backend/util/pandas.py:648-649 | exactly the given columns, rows kept |
| PandasUtil.ConcatLength | src/backend/util/pandas.py:647 | the result has as many rows as the kept frames together |
| PandasUtil.ConcatenatedColumns | src/backend/util/pandas.py:637-650 | the given columns exactly; otherwise each column of a kept frame once (the collected columns when no frame is kept) |
| PandasUtil.ConcatenatedRows | src/backend/util/pandas.py:643-650 | as many rows as the kept frames together; row j of the k-th kept frame sits at position j plus the rows of the kept frames before it, read on the result's columns |
| PandasUtil.ConcatRowAt | src/backend/util/pandas.py:643-650 | one row of one kept frame sits at its place in the concatenation, read on the result's columns |
| PandasUtil.ConcatDfs | src/backend/util/pandas.py:630-650 | the `+=` loop and the concatenation equal the specification |
| PandasUtil.Put | src/backend/util/pandas.py:586-589 | an entry keeps the dictionary's shape |
| PandasUtil.GetPut | src/backend/util/pandas.py:586-589 | after an entry, its path leads to its value |
| PandasUtil.GetPutOther | src/backend/util/pandas.py:586-589 | an entry leaves every other path of the same length as it was |
| PandasUtil.EmptyGet | src/backend/util/pandas.py:579 | an empty dictionary has nothing at the end of any path |
| PandasUtil.BuildLookup | src/backend/util/pandas.py:584-590 | each index path leads to the value of its last entry; a path not in the index leads nowhere |
| PandasUtil.SeriesToNestedDict | src/backend/util/pandas.py:577-590 | `ValueError` when the lengths differ; otherwise the entries put one after the other |
| PandasUtil.Positions | src/backend/util/pandas.py:722 | every key of the order has a position, the last at which it occurs |
| PandasUtil.Sorter | src/backend/util/pandas.py:725-729 | all missing when a subset is given that does not name the level; otherwise each value's key is its position in the order, or the order's length when it is absent |
| PandasUtil.SortKeyPlacement | src/backend/util/pandas.py:729 | a value in the order sorts before every value that is not |
| PandasUtil.SortKeyInverse | src/backend/util/pandas.py:722-729 | without repeats, the key of the order's `i`-th value is `i` |

## Left out

- The dagre layout algorithm is a parameter, a function from the layout graph to an optional centre per node id. ReactFlow rendering, the node's JSX label, the edge styles and the `useEffect` wiring of `ObjectGraph.tsx` are not modelled.
- `sort_values` is a parameter of `Dataframe.PaginatedDataframe`. The sort order itself is not modelled.
- pydantic validation of `GeneralModel` is not modelled. A record becomes a map of explicit fields plus the metadata map.
- `Dataframe.RecordToModel`: an explicit field named "metadata" is replaced by the metadata dictionary, as the source does; pydantic's coercion of field values is not modelled.
- The regular-expression engine is a parameter: `O2O.Matcher` for the corrected "regex" operator, and `O2O.Regex` (which patterns compile, search, match at the start) for the operator as written.
- `O2O.ApplyOperatorAsWritten`: a pattern is treated as plain text only when it holds none of `.^$*+?{}[]\|()`; any other pattern, even one Python would read literally, is left to the `O2O.Regex` parameter.
- `O2O.SeriesRepr`: pandas' printing of a column is approximated; numbers that are not whole print in a simplified form. Only its length bound and whether it holds a metacharacter are used.
- Timestamps are integer instants. Time zones, datetime parsing and `NaT` are not modelled; a missing timestamp is a missing cell, and an empty time range is `None`.
- Floating point is modelled as exact reals. `pd.to_numeric` accepts plain decimals with an optional sign and fraction; exponents, `inf` and thousands separators are not modelled.
- `Overview.GroupKeys`: groups are listed in order of first occurrence. pandas' `groupby` sorts its keys, so the model states which groups exist, not pandas' order.
- `Overview.ActivityCountsSize`: the activity entries are listed in order of first occurrence. pandas' `value_counts` orders them by descending count.
- `Overview.Triples`: the relation summaries are listed in order of first occurrence, not in pandas' sorted key order.
- `Merge.MergeFrames`: rows come left row by left row, then the unmatched right rows; pandas sorts the keys of an outer merge.
- The pandas index is not modelled. Rows are positional, so `reset_index(drop=True)` in `edit/objects.py` is the identity.
- The `print` calls in `edit/objects.py` are left out.
- `pm4py.ocel_get_attribute_names` is a parameter: the attribute names.
- The multi-index branch of the auto-renamer (`util/pandas.py` lines 90-95) is not modelled; column labels are flat.
- `PandasUtil.Capitalize` handles ASCII letters only.
- `mirror_dataframe` takes the suffixes as strings; `str()` of integer suffixes is the caller's.
- The `**kwargs` of `concat_dfs` are not modelled.
- `series_to_nested_dict` works on values: the nested dictionaries do not alias. A missing key is already the model's one missing value, so the `pd.isna` normalisation is the identity.
- `PandasUtil.Sorter`: `np.full_like(ix, np.nan)` is modelled as all missing. For an integer index numpy would write an arbitrary integer instead.
- `df_to_latex` rendering, `set_clipboard`, `format_row_wise`, the number formatters and the styling helpers of `util/pandas.py` are not part of this model.
- `edit/events.py` (`distribute`), the routes, the API client and the frontend forms are not part of this model.
- `Overview.OcelInformationParts`: the timestamp column is required to hold timestamps or missing values. A timestamp column of other values is not modelled.
- `UpsertObjects.UpsertedObjects`: a row maps each label to one cell, so two columns with one label collapse into one. Two added attributes with the same new name keep the last one's values, where pandas keeps both columns and `combine_first` at `edit/objects.py` line 49 would fail. The `seen_cols` deduplication is modelled, but it only matters for such repeats.
- `UpsertObjects.MatchedObjectResolved`: stated when the added attributes are distinct and their labels do not clash with the existing columns (`KeysApart`, `DistinctAttributes`). It names a result row resolved by the policy, not how many rows an object gets when several incoming rows describe it.
- `UpsertAttributes.Upsert`: its contract installs the result as written. The replace policy and the row statements are proved for the corrected drop (`MatchedRowResolved`, `UnmatchedRowKept`, `OneRowPerTarget`), and `UpsertAttributes.AsWrittenAgrees` carries them over when no differently paired extension key is a column of the target.
- `UpsertAttributes.UnmatchedRowKept`: proved for the corrected drop; it holds as written under the condition of `UpsertAttributes.AsWrittenAgrees`.
- `UpsertAttributes.OneRowPerTarget`: proved for the corrected drop; it holds as written under the condition of `UpsertAttributes.AsWrittenAgrees`.
- `UpsertAttributes.MatchedRowResolved`: proved for the corrected drop; it holds as written under the condition of `UpsertAttributes.AsWrittenAgrees`.
- `O2O.O2ORecordsAreRelatedPairs`: proved for the corrected operator. `O2O.AsWrittenRecordsAreRelatedPairs` states it for the program as written only for rules without "contains" or "regex" conditions.
- `O2O.JoinMask`: the meaning of each entry is stated for the corrected operator. As written it is the same mask when no condition uses "contains" or "regex" (`O2O.JoinMaskAgrees`).
- `O2O.ApplyO2ORule`: the `KeyError` raised when the merge did not suffix the object id column is modelled as naming "source-object". pandas reports the missing labels of the projection.
- `ObjectGraph.CreateLayoutedGraph`: the per-pair fan-out of the graph as written is proved only when no two ordered pairs share a string key (`ObjectGraph.GroupOffsetsAsWritten`). The colliding case is under "## Findings".
- `ObjectGraph.GraphData`: `Object.entries` lists integer-like type names first and never repeats a type. The model takes the type counts as a free sequence of entries, in the order given.
- `Tables.CompareCells`: column dtypes are not modelled; comparisons go cell by cell. Ordering a float column against an object column goes through numpy, which raises on a row pairing NaN with a string; the model gives false for that row.
- `ObjectFilters.ObjectFilterSelects`: the object type column is read as a cell, so a table without `ocel:type` has only missing types, which no listed type matches. `filter/objects.py` line 42 indexes the column and raises `KeyError` there. The model assumes the standard OCEL columns, which every pm4py log has.
- `EventFilters.FilterMaskPointwise`: the event columns `ocel:timestamp`, `ocel:activity` and `ocel:eid` and the relation columns `ocel:eid` and `ocel:type` are read as cells, so a missing standard column gives missing values and an empty selection. `filter/events.py` lines 95-113 index them and raise `KeyError`. The model assumes the standard OCEL columns.
- `OcelFilter.KeptRows`: the timestamp and activity columns are read as cells; `ocel.py` lines 15-21 raise `KeyError` when they are absent. The model assumes the standard OCEL columns.
- `O2O.KeysMatch`: merge keys are matched cell by cell. pandas raises `ValueError` when a float key column is merged with a string key column; the model finds no match there.

## Findings

| source | as written | input that shows it | evidently intended | confidence | as-written member | corrected member |
|---|---|---|---|---|---|---|
| src/frontend/components/editor/Graphs/ObjectGraph.tsx:86 | parallel edges are grouped by the string `${src}->${target}` | relations "a->b" to "c" and "a" to "b->c" share the key "a->b->c" and are fanned out as -10 and 10 | group by the ordered pair (src, target), so each gets offset 0 | not executed | ObjectGraph.StringKeyMergesDistinctPairs | ObjectGraph.GroupOffsets |
| src/backend/editor/util/edit/o2o.py:23 | `str(right)` prints the whole right column, and `str.contains` reads that as a regular expression | left "abc", right "b": kept by element-wise containment, dropped as written | element-wise substring test of the two columns | not executed | O2O.ContainsAsWrittenMissesSubstring | O2O.ContainsElementwise |
| src/backend/editor/util/edit/o2o.py:25 | `str.match` receives the right column itself as the pattern | left "abc", right "a.c": the pattern compiler refuses a column and raises | element-wise match of each left string against its right pattern | not executed | O2O.ContainsAsWrittenMissesSubstring | O2O.ApplyOperator |
| src/backend/editor/util/edit/attributes.py:38 | extension key columns are dropped by their own name after the merge | extension key "name" joined to "ocel:oid" on a table with its own "name": the target's "name" is dropped and "name_new" kept | drop the extension key under the label the merge gave it | not executed | UpsertAttributes.KeyDropRemovesTargetColumn | UpsertAttributes.CorrectedKeyDropKeepsTargetColumn |
