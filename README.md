# SQL search-hit row set, field capabilities and data tiers

This project models three parts of Elasticsearch in Dafny and proves
properties of the models.

**The SQL search-hit row set** (`inner_hits.dfy`, `row_set.dfy`). It turns
one page of search hits into rows for the SQL layer.
- Without a nested column, each hit is one row.
- With a nested column, each inner hit of the nested path is one row.
  - The inner hits of a hit are gathered from every inner_hits section whose
    key, cut at its last `_`, is the path.
  - They are deduplicated by nested offset and sorted by offset.
- The constructor does three things:
  - it rejects extractors that name more than one nested path;
  - it computes the page size from the limit;
  - it decides whether the scroll continues, and with what remaining limit.
- The cursor keeps a row counter and one index per level
  (`indexPerLevel`). `doNext` advances those indexes like an odometer, with
  carries.

**Field capabilities** (`field_caps.dfy`).
- The `Builder` folds what each index reports for one field into merged
  flags, a merged metric type, merged meta and a list of per-index entries.
- `build` sorts the entries by index name. It reports the indices that
  disagree on each flag, and all indices when metric types differ.
- Also modelled:
  - the non-time-series constructor;
  - the parser constructor's defaults;
  - the order of fields on the wire, which depends on the transport version.

**Data tiers** (`data_tier.dfy`).
- The five tier names.
- The frozen-to-hot preference chain and its lookup.
- The parsing of comma-separated tier lists.
- The two checks of the tier-preference setting.
- The provider that injects a default tier preference into new indices.
- The node-role tests.

`wrappers.dfy` holds `Option`, `Result` and `Outcome` (pass or fail with a
message). A Java `null` is `None`. A thrown exception is a `Failure` or
`Fail` value carrying the message.

Three behaviours of the code that a reader might not expect are modelled as
written:
- **A hit without inner hits is not skipped.** After a carry, `doNext`
  restarts its loop with `lvl = 0`, and the loop's `lvl++` moves on to
  level 1. So the carry lands on child 0 of the next hit even when that hit
  has no inner hits. Take hits with 1, 0 and 1 inner hits. The page has two
  rows, and the second sits at position (1, 0). A nested extractor reads past
  hit 1's inner hits there, and hit 2's inner hit is never read.
  `RowSet.EmptyHitNotSkipped` states this, and
  `RowSet.SearchHitRowSet.DoNext` models the loop step by step.
- **A non-negative limit that the page fills ends the scroll.** The
  remaining limit `limit - size` is then 0, and a remaining limit of 0 gives
  no continuation (`RowSet.FilledLimitEndsScroll`).
- **Duplicate offsets keep the last inner hit.** Every inner hit is put into
  a hash map keyed by its offset, so a later one replaces an earlier one
  (`InnerHits.ResolvedExample`).

## Model

| member | source | states |
|---|---|---|
| InnerHits.CompareNested | x-pack/plugin/sql/src/main/java/org/elasticsearch/xpack/sql/execution/search/SearchHitRowSet.java:158-171 | a null hit sorts before every hit and two nulls are equal; two hits compare as their offsets do (sign of the result, both directions) |
| InnerHits.CompareNestedIsTotalPreorder | x-pack/plugin/sql/src/main/java/org/elasticsearch/xpack/sql/execution/search/SearchHitRowSet.java:158-171 | the comparator is antisymmetric in sign, transitive, and consistent on equal elements, as Comparator requires |
| InnerHits.LastIndexOf | x-pack/plugin/sql/src/main/java/org/elasticsearch/xpack/sql/execution/search/SearchHitRowSet.java:141 | the result holds the character and no later position does, or it is -1 and the character does not occur |
| InnerHits.FillByOffset | x-pack/plugin/sql/src/main/java/org/elasticsearch/xpack/sql/execution/search/SearchHitRowSet.java:139-148 | the map's keys are exactly the offsets of the matching sections' inner hits; each key maps to the last inner hit seen with that offset |
| InnerHits.PutAll | x-pack/plugin/sql/src/main/java/org/elasticsearch/xpack/sql/execution/search/SearchHitRowSet.java:143-146 | putting a section's inner hits keeps the map keyed by offset, holding the last hit per offset |
| InnerHits.KeyedPut | x-pack/plugin/sql/src/main/java/org/elasticsearch/xpack/sql/execution/search/SearchHitRowSet.java:145 | one put adds the hit's offset and makes the hit the last one with it, leaving the other offsets' entries valid |
| InnerHits.ValuesOf | x-pack/plugin/sql/src/main/java/org/elasticsearch/xpack/sql/execution/search/SearchHitRowSet.java:152 | the list holds each value of the map once: its offsets are exactly the keys, pairwise distinct |
| InnerHits.SortByOffset | x-pack/plugin/sql/src/main/java/org/elasticsearch/xpack/sql/execution/search/SearchHitRowSet.java:153 | the array ends sorted under the comparator and is a permutation of what it held |
| InnerHits.SortedValuesResolved | x-pack/plugin/sql/src/main/java/org/elasticsearch/xpack/sql/execution/search/SearchHitRowSet.java:150-155 | the sorted map values are strictly ascending by offset, cover every candidate offset, and hold the last candidate for each |
| InnerHits.GetAllInnerHits | x-pack/plugin/sql/src/main/java/org/elasticsearch/xpack/sql/execution/search/SearchHitRowSet.java:132-156 | null in gives null out; otherwise the result is strictly ascending by offset, covers exactly the candidate offsets, and keeps the last candidate per offset |
| InnerHits.ResolvedLength | x-pack/plugin/sql/src/main/java/org/elasticsearch/xpack/sql/execution/search/SearchHitRowSet.java:137-155 | a hit contributes as many rows as it has distinct candidate offsets |
| InnerHits.AscendingUnique | x-pack/plugin/sql/src/main/java/org/elasticsearch/xpack/sql/execution/search/SearchHitRowSet.java:150-155 | two strictly ascending lists with the same offsets agree offset by offset |
| InnerHits.ResolvedUnique | x-pack/plugin/sql/src/main/java/org/elasticsearch/xpack/sql/execution/search/SearchHitRowSet.java:132-156 | the resolver's result is fully determined by the candidates |
| InnerHits.ResolvedExample | x-pack/plugin/sql/src/main/java/org/elasticsearch/xpack/sql/execution/search/SearchHitRowSet.java:137-155 | candidates with offsets 5, 2, 5, 2, 9 resolve to offsets 2, 5, 9, each the later duplicate |
| RowSet.FirstHitName | x-pack/plugin/sql/src/main/java/org/elasticsearch/xpack/sql/execution/search/SearchHitRowSet.java:53-61 | the first nested path is absent exactly when no extractor names one, and is otherwise one of the named paths |
| RowSet.CollectInnerHitPaths | x-pack/plugin/sql/src/main/java/org/elasticsearch/xpack/sql/execution/search/SearchHitRowSet.java:53-61 | the collected paths are exactly the named paths, without duplicates; the first of them is the first path named |
| RowSet.RawRowCount | x-pack/plugin/sql/src/main/java/org/elasticsearch/xpack/sql/execution/search/SearchHitRowSet.java:63-82 | the row count before the limit: one per hit without a nested path, otherwise the sum of the per-hit distinct-offset counts (related to the resolver by `RowSet.ResolveAll`) |
| RowSet.PageSize | x-pack/plugin/sql/src/main/java/org/elasticsearch/xpack/sql/execution/search/SearchHitRowSet.java:84 | the page size never exceeds the row count; it is the row count for a negative limit and min(rows, limit) otherwise |
| RowSet.NextScrollData | x-pack/plugin/sql/src/main/java/org/elasticsearch/xpack/sql/execution/search/SearchHitRowSet.java:88-107 | the constructor's scroll decision: none without a scroll id, on an empty page, at remaining limit 0 or when every hit is in; otherwise the scroll id with the remaining limit (characterised by `RowSet.NextScrollDataCases`) |
| RowSet.NextScrollDataCases | x-pack/plugin/sql/src/main/java/org/elasticsearch/xpack/sql/execution/search/SearchHitRowSet.java:88-107 | no continuation exactly when there is no scroll id, the page is empty, a non-negative limit is used up, or every hit is on the page; a continuation carries the scroll id and the negative limit unchanged or the positive remainder |
| RowSet.FilledLimitEndsScroll | x-pack/plugin/sql/src/main/java/org/elasticsearch/xpack/sql/execution/search/SearchHitRowSet.java:98-103 | a non-negative limit that the rows fill gives no continuation |
| RowSet.ResolveAll | x-pack/plugin/sql/src/main/java/org/elasticsearch/xpack/sql/execution/search/SearchHitRowSet.java:72-81 | every hit gets its resolved inner hits; the row count is the sum of the distinct-offset counts |
| RowSet.SearchHitRowSet.Create | x-pack/plugin/sql/src/main/java/org/elasticsearch/xpack/sql/execution/search/SearchHitRowSet.java:44-108 | fails exactly when more than one nested path is named, listing exactly those paths; otherwise the cursor is valid, has resolved inner hits per hit, the page size and continuation computed from the row count, and all indexes 0 |
| RowSet.SearchHitRowSet.IsLimitReached | x-pack/plugin/sql/src/main/java/org/elasticsearch/xpack/sql/execution/search/SearchHitRowSet.java:110-112 | when the limit is not reached, the page is not empty and the remaining limit is not 0 |
| RowSet.SearchHitRowSet.DoHasCurrent | x-pack/plugin/sql/src/main/java/org/elasticsearch/xpack/sql/execution/search/SearchHitRowSet.java:173-176 | there is a current row exactly while row < size, and the level indexes then name a hit (and a child of it when every hit is nested) |
| RowSet.ValueAt | x-pack/plugin/sql/src/main/java/org/elasticsearch/xpack/sql/execution/search/SearchHitRowSet.java:114-130 | the value `extractValue` reads at given level indexes: the hit, or the inner hit of the current hit, or an out-of-bounds or null failure (shown readable at every enumerated position by `RowSet.ValueAtEnumerated`) |
| RowSet.SearchHitRowSet.ExtractValue | x-pack/plugin/sql/src/main/java/org/elasticsearch/xpack/sql/execution/search/SearchHitRowSet.java:114-130 | the value read is the hit, or inner hit, at the current indexes, or the out-of-bounds or null failure the Java code would hit |
| RowSet.ValueAtEnumerated | x-pack/plugin/sql/src/main/java/org/elasticsearch/xpack/sql/execution/search/SearchHitRowSet.java:114-130 | at every enumerated position both kinds of extractor find a value |
| RowSet.SearchHitRowSet.DoNext | x-pack/plugin/sql/src/main/java/org/elasticsearch/xpack/sql/execution/search/SearchHitRowSet.java:178-209 | on or past the last row nothing changes and the answer is false; otherwise the row advances by one and the indexes take exactly one odometer step, failing only where the Java code indexes out of bounds; it never fails without nesting or when every hit is nested |
| RowSet.SearchHitRowSet.DoReset | x-pack/plugin/sql/src/main/java/org/elasticsearch/xpack/sql/execution/search/SearchHitRowSet.java:211-215 | the row and every level index are 0 and the cursor stays valid |
| RowSet.Odometer | x-pack/plugin/sql/src/main/java/org/elasticsearch/xpack/sql/execution/search/SearchHitRowSet.java:180-204 | one pass of the carry loop: bump the deepest index, carry onto child 0 of the next hit, fail where the loop reads out of bounds (tied to the enumeration by `RowSet.EnumerateStep`) |
| RowSet.EnumerateValid | x-pack/plugin/sql/src/main/java/org/elasticsearch/xpack/sql/execution/search/SearchHitRowSet.java:178-209 | every enumerated position is a valid (hit, child) pair |
| RowSet.EnumerateOrdered | x-pack/plugin/sql/src/main/java/org/elasticsearch/xpack/sql/execution/search/SearchHitRowSet.java:178-209 | the enumeration is strictly increasing in lexicographic order |
| RowSet.EnumerateComplete | x-pack/plugin/sql/src/main/java/org/elasticsearch/xpack/sql/execution/search/SearchHitRowSet.java:178-209 | every valid (hit, child) pair is enumerated |
| RowSet.EnumerateStep | x-pack/plugin/sql/src/main/java/org/elasticsearch/xpack/sql/execution/search/SearchHitRowSet.java:180-204 | with every hit nested, one odometer step moves exactly to the next enumerated position |
| RowSet.EnumerateFirst | x-pack/plugin/sql/src/main/java/org/elasticsearch/xpack/sql/execution/search/SearchHitRowSet.java:211-215 | with every hit nested, the first position is (0, 0), where reset puts the indexes |
| RowSet.EmptyHitNotSkipped | x-pack/plugin/sql/src/main/java/org/elasticsearch/xpack/sql/execution/search/SearchHitRowSet.java:186-194 | a carry lands on a hit with no inner hits although the enumeration skips it, and the next step fails |
| FieldCaps.LexTotal | server/src/main/java/org/elasticsearch/action/fieldcaps/FieldCapabilities.java:539 | any two index names are ordered one way or the other |
| FieldCaps.LexTrans | server/src/main/java/org/elasticsearch/action/fieldcaps/FieldCapabilities.java:539 | the name order is transitive |
| FieldCaps.LexAntisymmetric | server/src/main/java/org/elasticsearch/action/fieldcaps/FieldCapabilities.java:539 | names ordered both ways are equal |
| FieldCaps.SortByName | server/src/main/java/org/elasticsearch/action/fieldcaps/FieldCapabilities.java:539 | the entries end sorted by index name and are a permutation of the input |
| FieldCaps.MetricMergedUnique | server/src/main/java/org/elasticsearch/action/fieldcaps/FieldCapabilities.java:518-527 | the entries determine the merged metric type |
| FieldCaps.MetricStaysUnset | server/src/main/java/org/elasticsearch/action/fieldcaps/FieldCapabilities.java:520-523 | once a disagreement clears the metric type, later calls never set it again |
| FieldCaps.MetricStep | server/src/main/java/org/elasticsearch/action/fieldcaps/FieldCapabilities.java:518-527 | one add keeps the metric type the common one, or null once two differ |
| FieldCaps.MergedMetaAppend | server/src/main/java/org/elasticsearch/action/fieldcaps/FieldCapabilities.java:528-530 | merging one call's meta into the merged meta of the earlier calls gives, per key, every value any call reported |
| FieldCaps.MergeMeta | server/src/main/java/org/elasticsearch/action/fieldcaps/FieldCapabilities.java:528-530 | the result is the earlier meta with each of the index's values added to its key's set, a new key getting a set of its one value |
| FieldCaps.AddStep | server/src/main/java/org/elasticsearch/action/fieldcaps/FieldCapabilities.java:503-531 | what one `add` does to the merged fields: flags AND-ed (metadata OR-ed), metric type set by the first call and cleared on a disagreement, entry appended, meta merged (characterised by `FieldCaps.AddStepMerged`) |
| FieldCaps.InitialMerged | server/src/main/java/org/elasticsearch/action/fieldcaps/FieldCapabilities.java:487-497 | a fresh builder's fields are what no calls make of them |
| FieldCaps.AddStepMerged | server/src/main/java/org/elasticsearch/action/fieldcaps/FieldCapabilities.java:503-531 | one add turns the merge of the earlier calls into the merge of all of them: flags the conjunction (metadata the disjunction), metric common or null, meta united, entry appended |
| FieldCaps.ReorderMerged | server/src/main/java/org/elasticsearch/action/fieldcaps/FieldCapabilities.java:539 | reordering the entries keeps every merged field what the calls make of it |
| FieldCaps.AddAllMerged | server/src/main/java/org/elasticsearch/action/fieldcaps/FieldCapabilities.java:487-531 | any sequence of adds from a fresh builder yields the merge of those calls |
| FieldCaps.AddAllEntries | server/src/main/java/org/elasticsearch/action/fieldcaps/FieldCapabilities.java:512-513 | the entries are the calls' entries in call order |
| FieldCaps.FoldedMerged | server/src/main/java/org/elasticsearch/action/fieldcaps/FieldCapabilities.java:503-539 | the builder's state, whatever order its entries are in, is the merge of its calls |
| FieldCaps.Builder.constructor | server/src/main/java/org/elasticsearch/action/fieldcaps/FieldCapabilities.java:487-497 | a new builder has no calls, the initial flags and no entries |
| FieldCaps.Builder.Add | server/src/main/java/org/elasticsearch/action/fieldcaps/FieldCapabilities.java:503-531 | the call is recorded, its entry appended, and the builder still holds the fold of its calls |
| FieldCaps.Builder.GetIndices | server/src/main/java/org/elasticsearch/action/fieldcaps/FieldCapabilities.java:533-535 | the names of the entries, in entry order |
| FieldCaps.AddAllIndices | server/src/main/java/org/elasticsearch/action/fieldcaps/FieldCapabilities.java:533-535 | before `build`, `getIndices` after a fresh builder and a sequence of adds gives the added index names in call order |
| FieldCaps.Builder.Build | server/src/main/java/org/elasticsearch/action/fieldcaps/FieldCapabilities.java:537-610 | the entries end sorted and permuted, nothing else changes, and the result is the summary of the merged fields |
| FieldCaps.Summarize | server/src/main/java/org/elasticsearch/action/fieldcaps/FieldCapabilities.java:537-610 | the capabilities `build` returns from the merged fields: the flags, the metric type, the indices when asked, the conflict lists and the meta (characterised by `FieldCaps.BuildConflicts` and `FieldCaps.BuildMetricConflicts`) |
| FieldCaps.NamesWithoutMembers | server/src/main/java/org/elasticsearch/action/fieldcaps/FieldCapabilities.java:550-553 | the filtered list names exactly the indices lacking the flag |
| FieldCaps.NamesWithoutSorted | server/src/main/java/org/elasticsearch/action/fieldcaps/FieldCapabilities.java:539-553 | filtering sorted entries gives sorted names |
| FieldCaps.ConflictList | server/src/main/java/org/elasticsearch/action/fieldcaps/FieldCapabilities.java:546-579 | one flag's conflict list: null unless the merged flag is false and some index has the flag, otherwise the names of the indices without it (characterised by `FieldCaps.ConflictListCases`) |
| FieldCaps.ConflictListCases | server/src/main/java/org/elasticsearch/action/fieldcaps/FieldCapabilities.java:546-579 | a conflict list exists exactly when some index has the flag and some lacks it, and names exactly those lacking it, sorted |
| FieldCaps.MetricConflicts | server/src/main/java/org/elasticsearch/action/fieldcaps/FieldCapabilities.java:581-589 | the metric-conflict list: every index name when some index's metric type differs from the merged one, null otherwise (characterised by `FieldCaps.MetricConflictsCases`) |
| FieldCaps.MetricConflictsCases | server/src/main/java/org/elasticsearch/action/fieldcaps/FieldCapabilities.java:581-589 | the metric-conflict list exists exactly when two indices report different metric types, and then lists every index |
| FieldCaps.BuildConflicts | server/src/main/java/org/elasticsearch/action/fieldcaps/FieldCapabilities.java:537-579 | after adds and the sort, `build` lists the indices, sorted, exactly when asked; for each flag the conflict list exists exactly when indices disagree and names exactly the indices lacking it, sorted |
| FieldCaps.BuildMetricConflicts | server/src/main/java/org/elasticsearch/action/fieldcaps/FieldCapabilities.java:581-589 | after adds, `build` lists all indices as metric conflicts exactly when two report different metric types |
| FieldCaps.NonTimeSeries | server/src/main/java/org/elasticsearch/action/fieldcaps/FieldCapabilities.java:141-168 | the non-time-series constructor gives no dimension, no metric type and no time-series conflict lists |
| FieldCaps.FromParsed | server/src/main/java/org/elasticsearch/action/fieldcaps/FieldCapabilities.java:191-221 | the parser fails exactly on an unknown metric name; otherwise missing flags read as false, a missing meta as empty, and the lists pass through |
| FieldCaps.WriteTo | server/src/main/java/org/elasticsearch/action/fieldcaps/FieldCapabilities.java:249-268 | the values written in order: name, type, three flags, the time-series pair from 8.0.0 on, three optional lists, the time-series lists from 8.0.0 on, the meta (inverted by `FieldCaps.ReadFrom`, see `FieldCaps.RoundTrip`) |
| FieldCaps.ReadFrom | server/src/main/java/org/elasticsearch/action/fieldcaps/FieldCapabilities.java:223-247 | the stream constructor: reads the same fields in the same order, and before 8.0.0 sets no dimension, no metric type and no time-series lists; fails on a value of the wrong kind or a stream that ends early, and returns what is left unread |
| FieldCaps.AtVersion | server/src/main/java/org/elasticsearch/action/fieldcaps/FieldCapabilities.java:229-245 | what a version carries: the capabilities unchanged from 8.0.0 on, the time-series fields reset before |
| FieldCaps.RoundTrip | server/src/main/java/org/elasticsearch/action/fieldcaps/FieldCapabilities.java:223-268 | reading back what was written at a version gives the capabilities as that version carries them (time-series fields dropped before 8.0.0) and leaves the rest of the stream unread |
| FieldCaps.NonTimeSeriesSurvivesOldWire | server/src/main/java/org/elasticsearch/action/fieldcaps/FieldCapabilities.java:249-268 | capabilities without time-series data survive a trip at any version unchanged |
| DataTier.ValidTierName | server/src/main/java/org/elasticsearch/cluster/routing/allocation/DataTier.java:112-114 | a name is valid exactly when it is one of the five tier names (used by `DataTier.CheckTiers` and `DataTier.ExplicitTierMeansTierRole`) |
| DataTier.PiecesJoin | server/src/main/java/org/elasticsearch/cluster/routing/allocation/DataTier.java:182-189 | cutting a join of comma-free parts at its commas gives the parts back |
| DataTier.SplitJoin | server/src/main/java/org/elasticsearch/cluster/routing/allocation/DataTier.java:182-189 | Java's split by comma undoes the join of non-empty comma-free parts |
| DataTier.ContainsJoin | server/src/main/java/org/elasticsearch/cluster/routing/allocation/DataTier.java:272-276 | a non-empty string found in a join either spans a comma or lies inside one part |
| DataTier.PreferenceTable | server/src/main/java/org/elasticsearch/cluster/routing/allocation/DataTier.java:95-107 | the static initialiser's table: each tier of the chain from a position on maps to the join of the chain from that tier (characterised by `DataTier.PreferenceTableKeys` and `DataTier.PreferenceTableValue`) |
| DataTier.PreferenceTableKeys | server/src/main/java/org/elasticsearch/cluster/routing/allocation/DataTier.java:95-107 | the table's keys are exactly the tiers of the chain |
| DataTier.PreferenceTableValue | server/src/main/java/org/elasticsearch/cluster/routing/allocation/DataTier.java:95-107 | each tier maps to the comma-join of the chain from that tier to hot |
| DataTier.GetPreferredTiersConfiguration | server/src/main/java/org/elasticsearch/cluster/routing/allocation/DataTier.java:121-127 | the table lookup, failing with "invalid data tier [t]" for a tier outside the table (characterised by `DataTier.PreferredTiers`) |
| DataTier.PreferredTiers | server/src/main/java/org/elasticsearch/cluster/routing/allocation/DataTier.java:121-127 | the lookup succeeds exactly for the tiers of the chain, giving the join from that tier on |
| DataTier.PreferredColdExample | server/src/main/java/org/elasticsearch/cluster/routing/allocation/DataTier.java:116-127 | cold gives "data_cold,data_warm,data_hot" |
| DataTier.ContentHasNoPreference | server/src/main/java/org/elasticsearch/cluster/routing/allocation/DataTier.java:121-127 | the content tier has no preference chain |
| DataTier.GetPreferredTiersConfigurationSettings | server/src/main/java/org/elasticsearch/cluster/routing/allocation/DataTier.java:129-135 | the settings-table lookup with the same failure (related to the string lookup by `DataTier.PreferredSettings`) |
| DataTier.PreferredSettings | server/src/main/java/org/elasticsearch/cluster/routing/allocation/DataTier.java:129-135 | the settings lookup succeeds for the same tiers and holds the same preference under the tier-preference key |
| DataTier.ParseTierList | server/src/main/java/org/elasticsearch/cluster/routing/allocation/DataTier.java:182-189 | no tiers for a null or blank list, otherwise Java's split by comma with trailing empty strings dropped (round trip stated by `DataTier.ParsePreferred`) |
| DataTier.ParsePreferred | server/src/main/java/org/elasticsearch/cluster/routing/allocation/DataTier.java:182-189 | parsing a preference gives back exactly the tiers it was joined from |
| DataTier.Validate | server/src/main/java/org/elasticsearch/cluster/routing/allocation/DataTier.java:248-259 | passes a value without text; otherwise runs the tier loop over the parsed names (characterised by `DataTier.ValidateCases`) |
| DataTier.CheckTiers | server/src/main/java/org/elasticsearch/cluster/routing/allocation/DataTier.java:250-257 | the loop passes exactly when every parsed name is a valid tier |
| DataTier.ValidateCases | server/src/main/java/org/elasticsearch/cluster/routing/allocation/DataTier.java:248-259 | the validator fails exactly when the value has text and some parsed name is not a tier |
| DataTier.PreferredValidates | server/src/main/java/org/elasticsearch/cluster/routing/allocation/DataTier.java:248-259 | every preference the chain produces passes the validator |
| DataTier.ValidateWithSettings | server/src/main/java/org/elasticsearch/cluster/routing/allocation/DataTier.java:261-280 | checks nothing unless the setting exists with a value; a partial searchable snapshot accepts only `data_frozen`, any other index rejects a value containing `data_frozen` (applied by `DataTier.PreferredOutsideSnapshots` and `DataTier.DefaultValidates`) |
| DataTier.NoOtherTierContainsFrozen | server/src/main/java/org/elasticsearch/cluster/routing/allocation/DataTier.java:78-86 | no tier name other than frozen contains the frozen tier's name |
| DataTier.FrozenPreferenceNamesFrozen | server/src/main/java/org/elasticsearch/cluster/routing/allocation/DataTier.java:272-276 | the frozen tier's preference contains the frozen tier's name |
| DataTier.WarmerPreferenceOmitsFrozen | server/src/main/java/org/elasticsearch/cluster/routing/allocation/DataTier.java:272-276 | the preference of any warmer tier does not contain it |
| DataTier.PreferredOutsideSnapshots | server/src/main/java/org/elasticsearch/cluster/routing/allocation/DataTier.java:261-280 | outside partial searchable snapshots, a preference fails the settings check exactly when it starts from frozen |
| DataTier.GetDefaultTierPreference | server/src/main/java/org/elasticsearch/cluster/routing/allocation/DataTier.java:240-246 | `data_frozen` for a partial searchable snapshot, the empty string otherwise |
| DataTier.DefaultValidates | server/src/main/java/org/elasticsearch/cluster/routing/allocation/DataTier.java:240-246 | the default preference passes both checks |
| DataTier.GetAdditionalIndexSettings | server/src/main/java/org/elasticsearch/cluster/routing/allocation/DataTier.java:202-229 | the provider: the null marker when the preference is given, nothing when a routing-filter setting is given, otherwise hot for a data stream and content for any other index (characterised by the three `Provider` lemmas) |
| DataTier.ProviderInjectsValidPreference | server/src/main/java/org/elasticsearch/cluster/routing/allocation/DataTier.java:202-229 | the provider sets at most the tier preference; an injected value is hot for a data stream and content otherwise, and passes both checks |
| DataTier.ProviderExplicitPreferenceFirst | server/src/main/java/org/elasticsearch/cluster/routing/allocation/DataTier.java:209-212 | an explicit preference gives the null marker, although the key would also match the include-filter prefix |
| DataTier.ProviderDefaults | server/src/main/java/org/elasticsearch/cluster/routing/allocation/DataTier.java:213-228 | without an explicit preference the provider adds nothing exactly when some setting starts with a routing-filter prefix |
| DataTier.IsExplicitDataTier | server/src/main/java/org/elasticsearch/cluster/routing/allocation/DataTier.java:140-152 | false without a `node.roles` entry, otherwise whether some listed role is a tier name (characterised by `DataTier.ExplicitTierMeansTierRole`) |
| DataTier.IsContentNode | server/src/main/java/org/elasticsearch/cluster/routing/allocation/DataTier.java:154-157 | the node has the content role or the generic data role |
| DataTier.IsHotNode | server/src/main/java/org/elasticsearch/cluster/routing/allocation/DataTier.java:159-162 | the node has the hot role or the generic data role |
| DataTier.IsWarmNode | server/src/main/java/org/elasticsearch/cluster/routing/allocation/DataTier.java:164-167 | the node has the warm role or the generic data role |
| DataTier.IsColdNode | server/src/main/java/org/elasticsearch/cluster/routing/allocation/DataTier.java:169-172 | the node has the cold role or the generic data role |
| DataTier.IsFrozenNode | server/src/main/java/org/elasticsearch/cluster/routing/allocation/DataTier.java:174-180 | the node has the frozen role or the generic data role |
| DataTier.DataRoleCoversEveryTier | server/src/main/java/org/elasticsearch/cluster/routing/allocation/DataTier.java:154-180 | the generic data role puts a node in every tier but is not an explicit tier role |
| DataTier.ExplicitTierMeansTierRole | server/src/main/java/org/elasticsearch/cluster/routing/allocation/DataTier.java:140-152 | listed roles make an explicit tier node exactly when one of them is a tier name, and such a node is in that tier |

## Left out

- Value extraction by a `HitExtractor` is an external call. `ExtractValue` returns the hit or inner hit the extractor would be given.
- The `ResultRowSet` base class and its column mask are not part of this model.
- A search hit is reduced to its inner_hits sections. An inner hit is reduced to its nested offset and an opaque rest.
- The inner_hits map's iteration order is given as the order of the section list.
- `flatInnerHits` is keyed by hit position rather than by hit identity. With one nested path, the per-path map is one list per hit.
- Java `int` arithmetic is unbounded here. `size`, `row`, the row count `sz` and `limit - size` do not wrap at 2^31.
- Faults are `Failure` values. `ArrayIndexOutOfBoundsException` and a null dereference become `Failure(IndexOutOfBounds)` and `Failure(NullReference)`. The state written before the fault is kept.
- `nextScrollData()` and `size()` are read as the fields `nextScrollData` and `size`.
- FieldCaps.SortByName: index names are ordered by Unicode scalar values, while `String.compareTo` orders UTF-16 code units. The two orders agree on names without supplementary characters (above U+FFFF). They can differ when one name has such a character at the first difference and the other has a character from U+E000 to U+FFFF there. The same holds for `FieldCaps.Builder.Build`, which sorts with it.
- The stability of `Collections.sort` is not stated; only sortedness and permutation are.
- FieldCaps.SortByName: `build` sorts the builder's list in place. The model sorts a sequence value and stores it back.
- FieldCaps.Builder: the merged fields are one record value (`merged`), replaced as a whole on each `add`.
- `TimeSeriesParams.MetricType` is a name. `Enum.valueOf` is a membership test in a parameter set `knownMetrics`.
- XContent parsing and rendering, `equals`/`hashCode`/`toString` and the `StreamInput`/`StreamOutput` byte encodings are not modelled. The wire is a sequence of tagged values in write order.
- `Version.V_8_0_0` is the transport id 8000099. Only the comparison with it matters.
- Settings and node roles:
  - `Settings` is a set of keys, or a map from key to value or value list.
  - `DiscoveryNode` roles are a set of role names.
  - Whether an index is a partial searchable snapshot is a boolean parameter.
  - The routing-filter prefixes of `IndexMetadata` are parameters.
- `Strings.hasText` uses the characters for which `Character.isWhitespace` holds, listed explicitly.
- DataTier.InvalidTiersMessage: the allowed tiers are listed in declaration order. `Set.of` iteration order in Java is unspecified.
- The provider's logging and the deprecated enforce-default setting are not modelled. `Setting` registration, `Property` flags and the validator's `settings()` dependency list are not modelled either.
- `String.intern` and `Map.copyOf` have no observable effect here.
