# Property columns, their caches and two reference oracles

A model of the property-column read path of the IssunDB engine, proved in Dafny 4.11, with the benchmark
harness's reference evaluator and the small algorithms beside them. Check everything with
`dafny verify dfyconfig.toml`.

The engine keeps, beside its record store, a typed, dictionary-encoded, bit-packed index over every property of
every node (and another for edges). The plain thing behind it is a map from entity to its non-null properties. The
model says what each layer of the index means in terms of that map, and proves that it keeps that meaning:

- `Words`, `Json`: bytes, fixed-width words, JSON values and the comparison of values. Integers have the source's
  widths: `u32` codes truncate, `u64` arithmetic wraps or is checked where the source's is. A double is its sign,
  exponent and fraction fields, so group identity is bit identity while comparison is by value.
- `ColumnParts`, `Column`: bitmap, nullable values, string dictionary, the five column representations with in-place
  degradation, and the streaming builder, as classes with a ghost view. Two facts the code relies on and no loader
  re-checks, clear bits past a bitmap's length and an injective dictionary, are part of `Valid()`.
- `Tables`, `Builders`, `ColumnSets`, `PropertyColumns`, `DenseIndex`: a column set as a table, building it by one
  scan, and patching re-read entities into it.
- `Groups`, `CmpMask`, `Histograms`, `Stats`: grouping, comparison masks, equi-depth histograms and column statistics.
- `ColumnsCache`: the shared cache as a state machine over its atomic regions, commits and their recording being
  separate steps.
- `Checksums`, `CacheBytes`, `CsrFile`, `ColumnsFile`, `ColumnsIo`, `CacheTables`, `Arrays`: the two cache files over
  bytes, the streaming checksum, and the copy-on-write arrays.
- `ReferenceRows`, `Trails`: the openCypher reference evaluator, the trail counters, and when the two oracles agree.
- `EditDistance`, `Csv`, `EdgeImport`: the playground's edit distance and CSV writer, the importer's CSV reader and
  batched edge import.

## Where the code differs from what is said about it

Each of these keeps the code as it is, shows the input, and gives the exact condition.

- Fresh columns are meant to hold every recorded commit. `ColumnsCache.RecordedUpdateIsMissed` is a run where they do
  not: an update is recorded, a deletion of the same entity is committed and not recorded yet, and the patch skips the
  missing record, so the row from before the update is served. The comment at
  `crates/issundb-core/src/columns.rs:1197` says such a patch is discarded; it is, but only once the deletion is
  recorded. `ColumnsCache.ServedRow` gives the guarantee with that one exception, `ColumnsCache.RefreshMissesIff`
  says which recorded commits a whole refresh misses under the write lock, exactly, `ColumnsCache.RereadRowCurrentIff`
  gives the condition for one row, and `ColumnsCache.ServesCurrent` the exact agreement once every commit is recorded.
- Patching equals rebuilding unless an entity was deleted: `Tables.PatchEqualsRebuildIff` says exactly when.
- Widening a range can lower its estimate: two bounds can compare level only because a 64-bit integer was rounded to a
  double, and the integers in between are then lost. `Histograms.RoundingNarrows` is an estimate that falls from one
  row to none; `Histograms.EstimateNeverFallsIff` gives the exact condition on the four bounds, and
  `LowerNeverFallsIff` and `UpperNeverFallsIff` what it comes to with one bound.
- A dictionary code is a position truncated to 32 bits: `ColumnParts.ReadsBackIff` says for which positions a string
  reads back.
- A run of ids that wraps past the largest 64-bit id loses the ids after the wrap (`DenseIndex.WrappedIdIsLost`), also
  when it grows past it one id at a time (`DenseIndex.PastLargestIsLost`); the allocator never hands such ids out
  (`PropertyColumns.NoWrap`).
- The trail counter identifies a relationship by its end nodes, the reference evaluator by its position. They agree
  exactly when no counted row uses an ordered pair of nodes twice (`Trails.OraclesAgreeIff`), in particular without
  parallel relationships; `Trails.ParallelEdgesDisagree` is one difference.
- A CSV row read back is trimmed: `Csv.RowUnchangedIff` says when that changes nothing.

## Model

| member | source | states |
|---|---|---|
| `ColumnParts.Bitmap.Zeroed` | crates/issundb-core/src/columns.rs:183-189 | a new bitmap reads false everywhere and has no bit past its length |
| `ColumnParts.Bitmap.FromWords` | crates/issundb-core/src/columns.rs:193-196 | accepts exactly the word counts that fit the length; says nothing about bits past the length, as the code does not check them |
| `ColumnParts.Bitmap.Get` | crates/issundb-core/src/columns.rs:208-210 | reading a packed bit reads that element of the `seq<bool>` the words stand for |
| `ColumnParts.Bitmap.Set` | crates/issundb-core/src/columns.rs:213-222 | writing one packed bit changes that element of the `seq<bool>` and no other, and leaves the tail clear |
| `ColumnParts.Bitmap.Grow` | crates/issundb-core/src/columns.rs:225-232 | new positions expose whatever the last word held; only when the tail was clear are they all false, which is the invariant the code relies on |
| `ColumnParts.Nullable.FromParts` | crates/issundb-core/src/columns.rs:254-256 | accepts a bitmap and values exactly when their lengths agree |
| `ColumnParts.Nullable.Get` | crates/issundb-core/src/columns.rs:263-265 | a slot reads as its value when its presence bit is set and as nothing otherwise |
| `ColumnParts.Nullable.Set` | crates/issundb-core/src/columns.rs:286-294 | one slot becomes present with the value, or absent; every other slot keeps its reading |
| `ColumnParts.Nullable.Grow` | crates/issundb-core/src/columns.rs:296-303 | old slots keep their readings, new ones are absent |
| `ColumnParts.StrDict.FromParts` | crates/issundb-core/src/columns.rs:327-343 | accepts exactly the offsets that start at 0, never decrease and end at the byte length |
| `ColumnParts.StrDict.Get` | crates/issundb-core/src/columns.rs:350-353 | entry `i` is the string interned at position `i` |
| `ColumnParts.StrDict.BuildLookup` | crates/issundb-core/src/columns.rs:371-392 | the interning map rebuilt from the entries lists each of them, so a mapped dictionary interns like a built one |
| `ColumnParts.StrDict.Intern` | crates/issundb-core/src/columns.rs:371-392 | a new string is appended, a known one is not, no older entry moves, the dictionary stays injective, and the returned code reads back as the string while positions fit 32 bits |
| `ColumnParts.ReadsBackIff` | crates/issundb-core/src/columns.rs:371-416 | a string reads back through its truncated 32-bit code exactly while its position is below the null code |
| `Column.PropColumn.Json` | crates/issundb-core/src/columns.rs:590-606 | an all-null fallback column holds null in every slot |
| `Column.PropColumn.FromRaw` | crates/issundb-core/src/cache_file.rs:699-757 | a column built around mapped arrays holds, slot by slot, what the arrays say |
| `Column.PropColumn.RawHoldsCells` | crates/issundb-core/src/columns.rs:400-414 | the arrays of a column kept by this code satisfy everything a loader leaves unchecked (clear tails, injective dictionary), and say the same values |
| `Column.CellsOfRep` | crates/issundb-core/src/columns.rs:400-414 | each of the five representations reads its arrays as the same sequence of values |
| `Column.PropColumn.GetJsonOpt` | crates/issundb-core/src/columns.rs:663-675 | reading a slot gives its value, nothing for null |
| `Column.PropColumn.IsPresent` | crates/issundb-core/src/columns.rs:652-661 | the presence test agrees with the value being non-null, whatever the representation |
| `Column.PropColumn.Grow` | crates/issundb-core/src/columns.rs:590-606 | growing keeps every value, adds nulls, and keeps the column kind |
| `Column.PropColumn.Clear` | crates/issundb-core/src/columns.rs:609-618 | one slot becomes null, all others and the kind stay |
| `Column.PropColumn.Set` | crates/issundb-core/src/columns.rs:621-639 | one slot becomes the value, every other slot keeps its value, and the kind degrades exactly when the value is non-null and of another kind; past a full dictionary a string slot reads as what its truncated position stands for |
| `Column.PropColumn.DegradeToJson` | crates/issundb-core/src/columns.rs:642-649 | degradation changes the representation of every slot and the value of none |
| `Column.ColumnBuilder.Push` | crates/issundb-core/src/columns.rs:540-567 | a push past gaps appends nulls and the value, under any sequence of kinds, as long as the dictionary is not full; the earlier slots never change |
| `Column.ColumnBuilder.Finish` | crates/issundb-core/src/columns.rs:569-575 | the finished column reads exactly the pushed values and null elsewhere, is the fallback if and only if no single typed kind could hold them, and one of integers when it holds no value |
| `Column.ColumnBuilder.UntypedMeansAllNull` | crates/issundb-core/src/columns.rs:526-538 | a builder is untyped exactly while no value was set |
| `Column.InferredSet` | crates/issundb-core/src/columns.rs:540-567 | the kind inferred so far stays the right one when one more value arrives |
| `Json.KindIsOrdered` | crates/issundb-core/src/histogram.rs:180-195 | values of one column kind are totally ordered by `compare_values`, level only when equal |
| `Json.BoundTransitive` | crates/issundb-core/src/histogram.rs:120-143 | a bound of any kind keeps its side along ascending values of one kind, through integer-to-double rounding |
| `Json.CompareFlip` | crates/issundb-core/src/histogram.rs:180-195 | comparing the other way round flips the ordering and never changes comparability |
| `Json.CmpTextTransitive` | crates/issundb-core/src/histogram.rs:180-195 | string order is transitive |
| `Json.RoundIntMonotone` | crates/issundb-core/src/histogram.rs:180-195 | converting integers to doubles, ties to even, keeps their order |
| `Json.RoundIntNearest` | crates/issundb-core/src/histogram.rs:180-195 | converting an integer to a double is exact up to 53 bits and gives the nearest multiple of the spacing of doubles past them, the even one on a tie |
| `Json.UlpIsBinary` | crates/issundb-core/src/histogram.rs:180-195 | that spacing is the power of two that leaves 53 significant bits |
| `Json.DoubleOrder` | crates/issundb-core/src/histogram.rs:180-195 | the order of doubles is the lexicographic order of exponent and fraction, turned around for negative ones, with both zeros level |
| `Json.DoubleScale` | crates/issundb-core/src/histogram.rs:180-195 | the scale of doubles: exponent 1075 is the significand itself, one exponent more doubles, and the smallest ones are evenly spaced |
| `Json.ValueOrder` | crates/issundb-core/src/histogram.rs:180-195 | what less means for each pair of kinds: integers and doubles as numbers, strings by their first difference, false below true, everything else incomparable |
| `DenseIndex.Index.FromIds` | crates/issundb-core/src/csr.rs:101-120 | contiguous exactly for a run modulo 2^64 that fits 32 bits, otherwise a table of positions truncated to 32 bits; exact for distinct ids unless the run wraps or positions do not fit |
| `DenseIndex.TableFinds` | crates/issundb-core/src/csr.rs:112-119 | a table whose positions fit 32 bits finds each id at a position holding it and nothing else |
| `DenseIndex.Index.Push` | crates/issundb-core/src/csr.rs:124-140 | after a push the index is exact for the longer list if and only if the position fits 32 bits and the id is not 0 continuing a run that ends at the largest id |
| `DenseIndex.PastLargestIsLost` | crates/issundb-core/src/csr.rs:124-140 | why: after such a push the id 0 is listed and not found |
| `DenseIndex.ToTable` | crates/issundb-core/src/csr.rs:124-140 | turning a run into a table loses no id |
| `DenseIndex.WrappedIdIsLost` | crates/issundb-core/src/csr.rs:101-120 | the one failing family: an id listed after the wrap of a run past the largest 64-bit id is not found |
| `Tables.RowOfView` | crates/issundb-core/src/columns.rs:706-725 | each entity's row is its non-null properties |
| `Tables.ViewPatched` | crates/issundb-core/src/columns.rs:1178-1229 | replacing one row of the table replaces one entity's properties in what the table means |
| `Tables.ApplyIdsAt` | crates/issundb-core/src/columns.rs:1178-1229 | what a run of re-reads leaves for each id: the stored record where it exists, the old row otherwise |
| `Tables.ChunkingIsInvisible` | crates/issundb-core/src/columns.rs:1178-1229 | while storage stands still, cutting the touched ids into chunks of any size makes no difference |
| `Tables.PatchEqualsRebuildIff` | crates/issundb-core/src/columns.rs:1178-1229 | patching gives the view of a fresh build if and only if every id that reads differently is touched and still has a record |
| `Tables.PatchEqualsRebuild` | crates/issundb-core/src/columns.rs:1178-1229 | patching the touched ids, in any order, with repeats and in any chunking, equals rebuilding when nothing was deleted and every change is covered |
| `Tables.RefreshesEqualRebuild` | crates/issundb-core/src/columns.rs:1443-1480 | so does any number of refreshes, each over the store of its own time |
| `Builders.PushRecord` | crates/issundb-core/src/columns.rs:815-845 | each wanted member of a record lands in its property's builder at the record's slot, others untouched |
| `Builders.ScanStep` | crates/issundb-core/src/columns.rs:815-845 | one more record extends every property's column by that record's member or null |
| `Builders.Scan` | crates/issundb-core/src/columns.rs:815-845 | after one pass the builders hold, for exactly the properties that occur, every entity's value |
| `Builders.FinishAll` | crates/issundb-core/src/columns.rs:815-845 | every builder is finished over the same number of slots and no column disturbs another |
| `Builders.BuildColumns` | crates/issundb-core/src/columns.rs:815-845 | the built columns are those of the scan, each the fallback only when no typed kind fits |
| `ColumnSets.WriteSlot` | crates/issundb-core/src/columns.rs:1210-1224 | growing and writing one slot of one column leaves every other column's values alone |
| `ColumnSets.ClearSlot` | crates/issundb-core/src/columns.rs:1210-1214 | a re-read entity's slot is first null in every column |
| `ColumnSets.SetRecord` | crates/issundb-core/src/columns.rs:1215-1225 | then every member of its record is set, new property names getting all-null columns |
| `ColumnSets.PatchSlots` | crates/issundb-core/src/columns.rs:1210-1225 | clear and set together, with at most one more dictionary entry a column |
| `ColumnSets.PatchedCell` | crates/issundb-core/src/columns.rs:1178-1229 | every cell after a patch: the record's member at its slot, the old cell elsewhere, null where a column was short or absent |
| `ColumnSets.PatchReplacesRow` | crates/issundb-core/src/columns.rs:1178-1229 | patching a record replaces that row and no other, through new names, removed properties and new slots |
| `ColumnSets.RawColumnsAt` | crates/issundb-core/src/columns.rs:732-753 | the columns of a file by name |
| `ColumnSets.AddRaws` | crates/issundb-core/src/columns.rs:732-753 | columns built around mapped arrays are separate objects holding those values |
| `PropertyColumns.PropColumns.FromItemsFor` | crates/issundb-core/src/columns.rs:815-845 | the column set over the items means the items' table, one property only when restricted to it, and starts with no stale statistics |
| `PropertyColumns.ScanMeansStore` | crates/issundb-core/src/columns.rs:767-796 | a build from a full scan means exactly the stored records' non-null properties |
| `PropertyColumns.TableOfItemsMeans` | crates/issundb-core/src/columns.rs:815-845 | there is a column for exactly the properties some item has, of the one property only when restricted to it, and each cell is the item's own member |
| `PropertyColumns.PropColumns.FromCacheFile` | crates/issundb-core/src/columns.rs:732-753 | a column set around file arrays means the table of the file, and its dictionaries are as large as the file's, so the room a patch asks for can be read off the file |
| `PropertyColumns.FoundRow` | crates/issundb-core/src/columns.rs:899-910 | a row found by the index gives the entity's property even when ids repeat |
| `PropertyColumns.NotFoundRow` | crates/issundb-core/src/columns.rs:899-910 | an id the index does not find is not in the view |
| `PropertyColumns.NoWrap` | crates/issundb-core/src/csr.rs:101-120 | ids that the allocator can hand out never form a wrapping run |
| `PropertyColumns.PropColumns.RowOf` | crates/issundb-core/src/columns.rs:899-910 | looking an entity up answers whether it exists and which cell is its property |
| `PropertyColumns.PropColumns.CellOfRow` | crates/issundb-core/src/columns.rs:875-891 | a property without a column reads null |
| `PropertyColumns.PropColumns.PropColumnOf` | crates/issundb-core/src/columns.rs:899-910 | the gathered values are the entities' properties in request order, or the error names the first missing entity |
| `PropertyColumns.PropColumns.PropsTable` | crates/issundb-core/src/columns.rs:875-891 | the same for rows of several properties |
| `PropertyColumns.PropColumns.MinMax` | crates/issundb-core/src/columns.rs:862-868 | the returned and cached bounds equal recomputation: both occur in the column as it now is and no value lies outside of them, and there are none only without a value or for the fallback; they are computed once |
| `PropertyColumns.PropColumns.GetPropStats` | crates/issundb-core/src/columns.rs:850-856 | the returned and cached statistics describe the column as it is now, computed once |
| `PropertyColumns.PropColumns.DenseOf` | crates/issundb-core/src/columns.rs:1201-1209 | an existing entity keeps its slot, a new one gets the next |
| `PropertyColumns.PropColumns.PatchEntity` | crates/issundb-core/src/columns.rs:1201-1225 | one re-read entity's properties become its record's, everything else stays |
| `PropertyColumns.PropColumns.PatchChunk` | crates/issundb-core/src/columns.rs:1193-1226 | a chunk leaves the view its transaction describes, ids without a record skipped |
| `PropertyColumns.PropColumns.Patch` | crates/issundb-core/src/columns.rs:1178-1229 | the whole patch leaves exactly the view of the chunks read, part way when one fails; it clears the cached statistics exactly when there are ids, and the room left is what was asked for beyond it |
| `PropertyColumns.PropColumns.PatchAll` | crates/issundb-core/src/columns.rs:1443-1480 | any number of refreshes, one after another until one fails, leave the view of all their chunks read in order |
| `PropertyColumns.LoadThenPatch` | crates/issundb-core/src/columns.rs:1386-1480 | columns loaded from a file and then refreshed any number of times read as the file's table with those chunks applied |
| `Groups.FirstsAreDistinct` | crates/issundb-core/src/columns.rs:923-1038 | representatives are distinct and are exactly the values that occur |
| `Groups.SameCodeIff` | crates/issundb-core/src/columns.rs:923-1038 | two entities share a code exactly when their values are identical |
| `Groups.CodesAreDense` | crates/issundb-core/src/columns.rs:923-1038 | every code is used, for the first time after all smaller codes |
| `Groups.GroupingIsUnique` | crates/issundb-core/src/columns.rs:923-1038 | the values alone determine codes and representatives |
| `Groups.FewReps` | crates/issundb-core/src/columns.rs:923-1038 | there are never more representatives than rows, so codes fit 32 bits and the no-code marker is free |
| `Groups.TypedKeysInjective` | crates/issundb-core/src/columns.rs:923-1038 | the per-kind keys (integer, float bits, flag, string) tell the values of a typed column apart |
| `Groups.Intern` | crates/issundb-core/src/columns.rs:923-1038 | coding one non-null value extends a grouping by it |
| `Groups.InternNull` | crates/issundb-core/src/columns.rs:945-952 | null takes its code at its first occurrence |
| `Groups.GroupInts` | crates/issundb-core/src/columns.rs:961-973 | an integer column is grouped by value, or the first missing entity reported |
| `Groups.GroupFloats` | crates/issundb-core/src/columns.rs:974-989 | a float column is grouped by bits: 0.0 and -0.0 apart |
| `Groups.GroupBools` | crates/issundb-core/src/columns.rs:990-1002 | the two-slot table of a boolean column gives the same grouping |
| `Groups.GroupStrs` | crates/issundb-core/src/columns.rs:1003-1020 | the one-slot-per-dictionary-entry table gives the grouping by string |
| `Groups.GroupJsons` | crates/issundb-core/src/columns.rs:1021-1035 | the fallback column is grouped by serialization |
| `Groups.GroupNothing` | crates/issundb-core/src/columns.rs:931-943 | without a column all entities are in one null group |
| `Groups.GroupCodes` | crates/issundb-core/src/columns.rs:923-1038 | whatever the column kind: a grouping of the requested entities by their property, or the first missing entity |
| `Groups.SameValuesSameGroups` | crates/issundb-core/src/graph/mod.rs:1269-1303 | column sets that agree on the requested values give the same codes and representatives, whatever kinds they inferred |
| `Groups.SubsetGroupsAlike` | crates/issundb-core/src/graph/mod.rs:1269-1303 | columns over a subset of the entities, of the one property, group them as the whole-graph columns do |
| `CmpMask.PassOf` | crates/issundb-core/src/columns.rs:1139-1153 | one flag a dictionary entry: whether its string satisfies the operator |
| `CmpMask.Choose` | crates/issundb-core/src/columns.rs:1085-1158 | the row test picked for a column and a constant is the right one for their kinds |
| `CmpMask.RowPassesIffKept` | crates/issundb-core/src/columns.rs:1046-1158 | the typed test on a slot agrees with the boxed comparison for every kind, operator and constant |
| `CmpMask.OtherKind` | crates/issundb-core/src/columns.rs:1160-1174 | a constant of another kind is incomparable with every value of a typed column |
| `CmpMask.KeptOnIntegers` | crates/issundb-core/src/columns.rs:1068-1084 | each of the six operators keeps exactly the integers it should |
| `CmpMask.KeptOnComparable` | crates/issundb-core/src/columns.rs:1068-1084 | on a comparable pair the six operators follow from less and equal, and are each other's mirror or negation |
| `CmpMask.KeptOtherwise` | crates/issundb-core/src/columns.rs:1055-1067 | a null operand fails every operator, an incomparable pair every one but inequality |
| `CmpMask.MaskRows` | crates/issundb-core/src/columns.rs:1091-1174 | flag `i` is set exactly when entity `i` passes the boxed comparison, or the first missing entity is reported |
| `CmpMask.MaskNothing` | crates/issundb-core/src/columns.rs:1064-1072 | without a column no entity passes |
| `CmpMask.Mask` | crates/issundb-core/src/columns.rs:1055-1158 | the whole evaluation, declined for the fallback column and for no other |
| `Histograms.Build` | crates/issundb-core/src/histogram.rs:46-77 | the buckets are the sorted values cut into the clamped number of equally deep parts, the last taking the remainder; the row counts add up |
| `Histograms.PartsOf` | crates/issundb-core/src/histogram.rs:46-77 | the parts concatenate to the values, all of one depth but the last |
| `Histograms.DepthsAreEqual` | crates/issundb-core/src/histogram.rs:46-77 | as many buckets as asked for, at least one and at most one a value, all equally deep but the last |
| `Histograms.DistinctIsExact` | crates/issundb-core/src/histogram.rs:46-77 | a bucket's distinct count is the number of pairwise different values in it |
| `Histograms.EstimateRangeSelectivity` | crates/issundb-core/src/histogram.rs:101-119 | the estimate is the sum of the buckets' estimated rows over the total |
| `Histograms.BucketError` | crates/issundb-core/src/histogram.rs:101-177 | a bucket the range does not straddle is estimated exactly, a straddled one is off by at most its rows |
| `Histograms.StraddlingTotal` | crates/issundb-core/src/histogram.rs:101-143 | at most two buckets straddle, holding at most 2*floor(len/nb) + len mod nb rows |
| `Histograms.RangeEstimateError` | crates/issundb-core/src/histogram.rs:101-177 | estimated rows differ from the matching rows by at most 2*floor(len/nb) + len mod nb |
| `Histograms.SelectivityIsFraction` | crates/issundb-core/src/histogram.rs:101-177 | the range estimate lies between 0 and 1 |
| `Histograms.RowsByLength` | crates/issundb-core/src/histogram.rs:101-177 | a bucket between two different numbers counts in proportion to how much of it the range has in common with it |
| `Histograms.EvenInside` | crates/issundb-core/src/histogram.rs:147-177 | between two cuts inside a bucket lie its rows in proportion to the distance of the cuts |
| `Histograms.EvenRanges` | crates/issundb-core/src/histogram.rs:147-177 | the estimates of two ranges inside a bucket are as their lengths |
| `Histograms.CutAddsUp` | crates/issundb-core/src/histogram.rs:101-177 | cutting a range in two at any number loses no estimated row and counts none twice |
| `Histograms.NothingToInterpolate` | crates/issundb-core/src/histogram.rs:147-177 | all rows of a bucket of one number, exactly half of those of a straddled bucket of strings or booleans |
| `Histograms.EstimateMonotone` | crates/issundb-core/src/histogram.rs:101-177 | widening a range that loses no value never lowers its estimate |
| `Histograms.EstimateNeverFallsIff` | crates/issundb-core/src/histogram.rs:101-177 | widening lowers no histogram's estimate if and only if no integer next to a new bound is left out of the range, a test on the four bounds |
| `Histograms.LowerNeverFallsIff` | crates/issundb-core/src/histogram.rs:124-143 | with a lower bound only, estimates never fall if and only if the two bounds are not level through the rounding of an integer to a double |
| `Histograms.UpperNeverFallsIff` | crates/issundb-core/src/histogram.rs:124-143 | the same with an upper bound only |
| `Histograms.LowerWidensIff` | crates/issundb-core/src/histogram.rs:124-143 | a lower bound that compares at or below another one widens the range if and only if the pair is not level through integer rounding |
| `Histograms.UpperWidensIff` | crates/issundb-core/src/histogram.rs:124-143 | the same for upper bounds |
| `Histograms.RoundingNarrows` | crates/issundb-core/src/histogram.rs:180-195 | a falling estimate: over the one value 2^53, widening the lower bound from the double 2^53 to the integer 2^53 + 1 takes the estimate from 1 row to 0 |
| `Histograms.AsF64Monotone` | crates/issundb-core/src/histogram.rs:147-177 | numbers keep their order as doubles |
| `Histograms.EstimateEqualitySelectivity` | crates/issundb-core/src/histogram.rs:81-99 | the first bucket holding the value decides: its rows spread over its distinct values; zero when no bucket holds it or there are no rows |
| `Histograms.StoredValueHasBucket` | crates/issundb-core/src/histogram.rs:81-99 | a value that occurs always has a bucket, so it is never estimated absent |
| `Histograms.BucketSharesAddUp` | crates/issundb-core/src/histogram.rs:81-99 | where no earlier bucket holds them, the estimates of a bucket's distinct values add up to the bucket's share of the rows |
| `Stats.NonNullValues` | crates/issundb-core/src/columns.rs:1234-1258 | the non-null values of a column in slot order |
| `Stats.Sort` | crates/issundb-core/src/columns.rs:1234-1258 | some ascending permutation of the values |
| `Stats.FoldBounds` | crates/issundb-core/src/columns.rs:1262-1294 | the one-pass fold of the bounds |
| `Stats.BoundsAreBounds` | crates/issundb-core/src/columns.rs:1262-1294 | the fold's result are values of the column no value lies outside of |
| `Stats.BoundsAreEnds` | crates/issundb-core/src/columns.rs:1262-1294 | the one-pass bounds equal the first and last of the sorted values |
| `Stats.ColumnBounds` | crates/issundb-core/src/columns.rs:1262-1294 | two values of a typed column no cell lies outside of; nothing exactly for the fallback or an all-null column |
| `Stats.RunsOf` | crates/issundb-core/src/columns.rs:1296-1319 | counting equal neighbours of sorted values gives every value once with its multiplicity |
| `Stats.SortByCount` | crates/issundb-core/src/columns.rs:1296-1319 | most frequent first, equal counts in ascending value order |
| `Stats.TruncatedAreMcvs` | crates/issundb-core/src/columns.rs:1296-1319 | cutting that list to its first entries leaves out nothing more frequent than what stays |
| `Stats.MultiplicityOfPermutation` | crates/issundb-core/src/columns.rs:1296-1319 | multiplicities do not depend on the order of the values |
| `Stats.ComputePropStats` | crates/issundb-core/src/columns.rs:1296-1319 | histogram and most common values of the column: exact multiplicities, no unlisted value more frequent than a listed one |
| `Stats.EqualitySelectivity` | crates/issundb-core/src/columns.rs:690-702 | the first listed value equal to the argument gives its count over the total, otherwise the histogram's estimate |
| `Stats.ListedShareIsExact` | crates/issundb-core/src/columns.rs:690-702 | for a most common value the estimate is its exact share of the rows |
| `ColumnsCache.StepKeepsInv` | crates/issundb-core/src/columns.rs:1321-1590 | every step (commit, recording, take, chunk, failure, rebuild, load, drop, save, restart) keeps the invariant |
| `ColumnsCache.RunsKeepInv` | crates/issundb-core/src/columns.rs:1321-1590 | so does every interleaving |
| `ColumnsCache.InitialInv` | crates/issundb-core/src/columns.rs:1372-1383 | the empty cache satisfies it |
| `ColumnsCache.WriteKeeps` | crates/issundb-core/src/graph/mod.rs:1553-1645 | a commit becomes visible before it is recorded, and the invariant says what that leaves owed |
| `ColumnsCache.RecordTouchedKeeps` | crates/issundb-core/src/columns.rs:1419-1433 | recording touched ids discharges the commit |
| `ColumnsCache.RecordFullKeeps` | crates/issundb-core/src/columns.rs:1435-1441 | recording a full refresh, or recovering by one, discharges everything |
| `ColumnsCache.PatchChunkKeeps` | crates/issundb-core/src/columns.rs:1178-1229 | a chunk patched while commits go on leaves every missed commit owed |
| `ColumnsCache.InstallKeeps` | crates/issundb-core/src/columns.rs:1443-1470 | installing a build or a loaded file is sound although commits went on since the scan |
| `ColumnsCache.RereadRowCurrentIff` | crates/issundb-core/src/columns.rs:1194-1200 | re-reading an id makes its row current if and only if its record exists or it has no row |
| `ColumnsCache.DisagreementIsOwed` | crates/issundb-core/src/columns.rs:1443-1590 | wherever the columns and storage disagree the id is pending, a full refresh is pending, or a commit touching it is unrecorded |
| `ColumnsCache.ServedRow` | crates/issundb-core/src/columns.rs:1443-1470 | a served row is that of one committed state; no recorded commit after it touched the id, unless it is the row of an entity that a not yet recorded commit deleted |
| `ColumnsCache.ServesCurrent` | crates/issundb-core/src/columns.rs:1443-1470 | once every commit is recorded, readers are served exactly what storage holds |
| `ColumnsCache.RecordedUpdateIsMissed` | crates/issundb-core/src/columns.rs:1178-1229 | the exception is real: a run in which a recorded update, followed by an unrecorded deletion, is missed by a patch and served stale |
| `ColumnsCache.SerializedKeepsLatest` | crates/issundb-core/src/graph/mod.rs:1553-1645 | with commits and their recording under one lock, only the latest commit is ever unrecorded |
| `ColumnsCache.RefreshMissesIff` | crates/issundb-core/src/columns.rs:1178-1229 | under that lock a whole refresh makes up for every recorded commit, except exactly those to an entity that has a row and no record |
| `ColumnsCache.LoadIsBuild` | crates/issundb-core/src/columns.rs:1386-1415 | a cache file is only ever loaded when it is indistinguishable from a fresh build |
| `ColumnsCache.SavedUnderCurrentIff` | crates/issundb-core/src/graph/mod.rs:1231-1253 | columns saved under the current generation are loaded by a later process as they are, and it then serves what storage holds if and only if the saved columns already did |
| `ColumnsCache.UnlockedCaptureServesStale` | crates/issundb-core/src/graph/mod.rs:1235-1250 | why the generation is captured under the write lock: a run in which capturing it between a commit and its recording ends with a later process serving the old value, nothing being pending |
| `ColumnsCache.FirstSaveStays` | crates/issundb-core/src/cache_file.rs:497-499 | no later save under one captured generation replaces the file of the first |
| `Checksums.XorShiftInverse` | crates/issundb-core/src/cache_file.rs:63-68 | `h ^ (h >> 32)` is its own inverse on 64 bits |
| `Checksums.MultiplierInverse` | crates/issundb-core/src/cache_file.rs:63-68 | multiplying by the odd constant modulo 2^64 is undone by the explicit inverse |
| `Checksums.MixInjective` | crates/issundb-core/src/cache_file.rs:63-68 | a mixing step is a bijection in the state and in the word |
| `Checksums.FoldInjective` | crates/issundb-core/src/cache_file.rs:70-92 | nothing mixed in later hides a difference of states |
| `Checksums.FoldConcat` | crates/issundb-core/src/cache_file.rs:70-92 | folding a concatenation at a word boundary is folding the parts in turn |
| `Checksums.LeNatPadded` | crates/issundb-core/src/cache_file.rs:94-103 | zero-padding the tail word does not change its value |
| `Checksums.Sum64.constructor` | crates/issundb-core/src/cache_file.rs:53-61 | a new sum has seen nothing |
| `Checksums.Sum64.MixWord` | crates/issundb-core/src/cache_file.rs:63-68 | one step of the state |
| `Checksums.Sum64.FillBuffer` | crates/issundb-core/src/cache_file.rs:70-92 | a partly filled buffer is topped up without losing or reordering a byte |
| `Checksums.Sum64.Update` | crates/issundb-core/src/cache_file.rs:70-92 | after any split of the input the state stands for the concatenation of all bytes seen |
| `Checksums.Sum64.Finish` | crates/issundb-core/src/cache_file.rs:94-103 | the result is the checksum of the concatenated bytes, however they were split |
| `Checksums.ChecksumOf` | crates/issundb-core/src/cache_file.rs:106-110 | one pass over a mapped file gives the same |
| `Checksums.ChecksumDetects` | crates/issundb-core/src/cache_file.rs:45-110 | two equal-length inputs differing in exactly one aligned word, tail included, have different sums |
| `CacheBytes.DecEnc` | crates/issundb-core/src/cache_file.rs:128-155 | decoding the little-endian elements gives them back, at every width |
| `CacheBytes.Mapped` | crates/issundb-core/src/array.rs:83-108 | a mapped view exists exactly when it is in bounds and aligned |
| `CacheBytes.MappedWritten` | crates/issundb-core/src/array.rs:83-108 | an array written at an aligned offset is the one mapped there |
| `CacheBytes.U64Written` | crates/issundb-core/src/cache_file.rs:171-175 | a number written there is the one read |
| `CacheBytes.Align8` | crates/issundb-core/src/cache_file.rs:444-446 | the next multiple of 8, less than 8 away |
| `CacheBytes.SumWriter.Put` | crates/issundb-core/src/cache_file.rs:119-122 | bytes are appended and summed |
| `CacheBytes.SumWriter.PutU64` | crates/issundb-core/src/cache_file.rs:124-126 | eight little-endian bytes are appended |
| `CacheBytes.SumWriter.PutWords` | crates/issundb-core/src/cache_file.rs:128-155 | each element's bytes are appended in turn |
| `CacheBytes.SumWriter.PadTo8` | crates/issundb-core/src/cache_file.rs:157-161 | zeros up to the next multiple of 8 |
| `CacheBytes.SumWriter.Finish` | crates/issundb-core/src/cache_file.rs:163-167 | the file ends in the checksum of everything put |
| `CacheBytes.SealedIntact` | crates/issundb-core/src/cache_file.rs:163-167 | a finished file passes the loaders' checksum test |
| `CacheBytes.ChangedWordBreaksSeal` | crates/issundb-core/src/cache_file.rs:106-110 | a file with one aligned word of its body changed does not |
| `CsrFile.CsrFileLen` | crates/issundb-core/src/cache_file.rs:298-316 | through every overflow check: the true length, nothing exactly when it does not fit 64 bits |
| `CsrFile.SaveCsr` | crates/issundb-core/src/cache_file.rs:198-243 | the bytes written are the header, the nine arrays, the optional padded weights and the checksum |
| `CsrFile.BodyLength` | crates/issundb-core/src/cache_file.rs:298-316 | the file is exactly as long as the length computation says |
| `CsrFile.FixedArraysPlaced` | crates/issundb-core/src/cache_file.rs:377-400 | each of the nine arrays starts aligned for its element and ends inside the body |
| `CsrFile.WeightsPlaced` | crates/issundb-core/src/cache_file.rs:320-322 | so do the weights, thanks to the padding |
| `CsrFile.ArraysOf` | crates/issundb-core/src/cache_file.rs:377-400 | arrays mapped from a file of the right length have the lengths the header claims |
| `CsrFile.LoadCsr` | crates/issundb-core/src/cache_file.rs:335-416 | header, length and checksum are checked in order, then array after array mapped at a running offset |
| `CsrFile.LoadSnapshot` | crates/issundb-core/src/cache_file.rs:335-417 | the snapshot comes with an index of its node ids that finds each at its own position, when they are distinct, fit 32 bits and do not wrap |
| `CsrFile.ArraysWritten` | crates/issundb-core/src/cache_file.rs:335-416 | a file that starts with the body of a snapshot maps to that snapshot |
| `CsrFile.LoadSaved` | crates/issundb-core/src/cache_file.rs:335-416 | a saved snapshot loads back unchanged for its own identity and generation, and is refused for any other, when weights are wanted and missing, or past the largest edge count |
| `CsrFile.CorruptWordRefused` | crates/issundb-core/src/cache_file.rs:335-416 | a saved file with one aligned word of its body changed is refused |
| `ColumnsFile.PartsWritten` | crates/issundb-core/src/cache_file.rs:582-694 | arrays written one after another are mapped back by their planned places |
| `ColumnsFile.Assembled` | crates/issundb-core/src/cache_file.rs:699-757 | arrays of a well-formed column assemble to that column, for each of the five kinds |
| `ColumnsFile.ColumnWritten` | crates/issundb-core/src/cache_file.rs:595-757 | one column reads back by its directory entry |
| `ColumnsFile.ColumnsWritten` | crates/issundb-core/src/cache_file.rs:595-758 | all columns read back by the planned directory |
| `ColumnsFile.PreludeLength` | crates/issundb-core/src/cache_file.rs:565-580 | the data region starts 8-byte aligned right after the directory |
| `ColumnsFile.ColHeaderRead` | crates/issundb-core/src/cache_file.rs:663-678 | the header is recognised for its own identity and generation only |
| `ColumnsFile.LoadSavedColumns` | crates/issundb-core/src/cache_file.rs:488-758 | any column set mixing the five kinds loads back array for array for its own database and generation, and for no other |
| `ColumnsFile.CorruptColumnsRefused` | crates/issundb-core/src/cache_file.rs:648-680 | a saved file with one aligned word of its body changed is refused |
| `ColumnsIo.Layout.Place` | crates/issundb-core/src/cache_file.rs:450-460 | an array goes where the last one's padding ended |
| `ColumnsIo.PlanColumn` | crates/issundb-core/src/cache_file.rs:509-564 | the planned places of one column are where its arrays will be written |
| `ColumnsIo.Plan` | crates/issundb-core/src/cache_file.rs:503-565 | the planning pass gives the directory of the data as it will be written, the boxed columns serialized once, and the data length |
| `ColumnsIo.WriteColumn` | crates/issundb-core/src/cache_file.rs:595-632 | one column's arrays in the planned order, each padded |
| `ColumnsIo.WriteColumns` | crates/issundb-core/src/cache_file.rs:582-633 | all columns in order, the serialized cells matched up |
| `ColumnsIo.WriteFile` | crates/issundb-core/src/cache_file.rs:567-636 | the writing pass ends where the plan ended, so both passes place every array alike |
| `ColumnsIo.SaveColumns` | crates/issundb-core/src/cache_file.rs:488-639 | the existing file is kept exactly when it begins with this format's mark, this database's identity and this generation; otherwise the new one is written |
| `ColumnsIo.ClaimedIff` | crates/issundb-core/src/cache_file.rs:466-476 | a file claims a generation exactly when it begins with the mark, the identity and that generation |
| `ColumnsIo.SaveThenLoad` | crates/issundb-core/src/cache_file.rs:488-758 | what a load finds after a save: the saved columns where there was no file or a foreign one, and over a file that an earlier save wrote, the columns of that file if it was for this database and generation and the new ones otherwise |
| `ColumnsIo.BuildColumn` | crates/issundb-core/src/cache_file.rs:699-757 | a column is refused exactly when its arrays do not fit together |
| `ColumnsIo.LoadColumn` | crates/issundb-core/src/cache_file.rs:688-757 | an unknown kind, a place outside the region or misfitting arrays refuse the entry |
| `ColumnsIo.LoadAll` | crates/issundb-core/src/cache_file.rs:699-758 | one refused or wrong-length column refuses the file |
| `ColumnsIo.LoadColumns` | crates/issundb-core/src/cache_file.rs:648-758 | header, checksum, directory, entities and columns in order |
| `CacheTables.I64RoundTrip` | crates/issundb-core/src/cache_file.rs:600-602 | an integer survives as two's complement |
| `CacheTables.F64RoundTrip` | crates/issundb-core/src/cache_file.rs:149-155 | a finite double survives as its bits |
| `CacheTables.StoredRoundTrip` | crates/issundb-core/src/cache_file.rs:595-632 | storing a column as bits loses nothing and keeps it loadable |
| `CacheTables.ListedTable` | crates/issundb-core/src/columns.rs:756-762 | the listed columns of a valid set satisfy what no loader checks, and mean its table |
| `CacheTables.SavedFileIsBuildable` | crates/issundb-core/src/cache_file.rs:688-758 | what is loaded from a saved file has clear tails and injective dictionaries, which no loader checks, and the saved table in its arrays |
| `CacheTables.SavedTableLoads` | crates/issundb-core/src/cache_file.rs:488-758 | saving a column set and loading the file gives the same value in every slot, nothing for another database or generation |
| `Arrays.Array.MapFile` | crates/issundb-core/src/array.rs:83-108 | a view of the file exists exactly when it is in bounds, and shows that region |
| `Arrays.Array.Clone` | crates/issundb-core/src/array.rs:166-176 | a clone reads the same; an owned buffer is copied, a mapped one shared |
| `Arrays.Array.WithMut` | crates/issundb-core/src/array.rs:119-139 | after a mutation the array owns its elements and they are what the mutation made of them; a mapped file is left for a fresh buffer |
| `Arrays.MutateClone` | crates/issundb-core/src/array.rs:119-139 | mutating a clone changes neither the original nor the shared file |
| `Arrays.MutateOriginal` | crates/issundb-core/src/array.rs:119-139 | mutating the original changes neither its clone nor the file |
| `ReferenceRows.GraphRepresents` | benchmarks/ladybugdb-compare/src/main.rs:1311-1320 | both adjacencies list every relationship at its ends, once each, in order |
| `ReferenceRows.Build` | benchmarks/ladybugdb-compare/src/main.rs:1311-1320 | the one pass over the relationships builds those adjacencies |
| `ReferenceRows.Push` | benchmarks/ladybugdb-compare/src/main.rs:1406-1415 | the continuations pushed are those by relationships not used yet |
| `ReferenceRows.Expanded` | benchmarks/ladybugdb-compare/src/main.rs:1383-1416 | popping an item and pushing its continuations keeps the completions of the stack, and the work left shrinks by one |
| `ReferenceRows.Emit` | benchmarks/ladybugdb-compare/src/main.rs:1385-1399 | a complete chain is emitted as it is, or once for every unused relationship that closes it |
| `ReferenceRows.Enumerate` | benchmarks/ladybugdb-compare/src/main.rs:1380-1416 | the worklist terminates having emitted the whole answer in order |
| `ReferenceRows.CompletionsExact` | benchmarks/ladybugdb-compare/src/main.rs:1365-1416 | the completions of a partial assignment are exactly the matches that extend it |
| `ReferenceRows.CompletionsOnce` | benchmarks/ladybugdb-compare/src/main.rs:1365-1416 | each once |
| `ReferenceRows.AnswerExact` | benchmarks/ladybugdb-compare/src/main.rs:1365-1416 | the answer is exactly the matches with pairwise distinct relationships, the closing hop included, that start at a source |
| `ReferenceRows.AnswerOnce` | benchmarks/ladybugdb-compare/src/main.rs:1365-1416 | each match is listed once, parallel relationships being different matches |
| `ReferenceRows.Rows` | benchmarks/ladybugdb-compare/src/main.rs:1365-1416 | from the anchor to the assignments: one for every match that starts at the probed vertex, or below the cutoff, and none twice |
| `Trails.OutAdjacency` | benchmarks/ladybugdb-compare/src/main.rs:267-273 | neighbours in relationship order, the same as the reference graph's |
| `Trails.Walk.CountFrom` | benchmarks/ladybugdb-compare/src/main.rs:527-556 | the recursive counter adds the number of trails from a node and restores the pairs used |
| `Trails.Walk.EndsFrom` | benchmarks/ladybugdb-compare/src/main.rs:559-585 | the endpoint collector adds the reached nodes and restores the pairs used |
| `Trails.CountTrails` | benchmarks/ladybugdb-compare/src/main.rs:527-556 | the trails of min to max hops from a node |
| `Trails.CountTrailEndpoints` | benchmarks/ladybugdb-compare/src/main.rs:559-585 | the number of distinct nodes that trails of one length end in |
| `Trails.OneMoreHop` | benchmarks/ladybugdb-compare/src/main.rs:527-556 | counting a range of lengths is counting each length |
| `Trails.CountIsDistinct` | benchmarks/ladybugdb-compare/src/main.rs:527-556 | the counter at a partial chain counts its completions whose vertex pairs are distinct |
| `Trails.CountAtIsRows` | benchmarks/ladybugdb-compare/src/main.rs:527-556 | at each length the counter counts the reference rows whose vertex pairs are distinct, and the collector collects their last nodes |
| `Trails.OraclesAgreeIff` | benchmarks/ladybugdb-compare/src/main.rs:527-556 | the counter never exceeds the reference and equals it if and only if no counted row uses a vertex pair twice |
| `Trails.OraclesAgree` | benchmarks/ladybugdb-compare/src/main.rs:527-556 | without parallel relationships the two oracles give the same number of trails |
| `Trails.EndpointsAgree` | benchmarks/ladybugdb-compare/src/main.rs:559-585 | and the same end nodes |
| `Trails.ParallelEdgesDisagree` | benchmarks/ladybugdb-compare/src/main.rs:527-556 | with parallel relationships they differ: three hops over two relationships between the same nodes |
| `EditDistance.Compute` | web/app.js:1002-1015 | the two-row loop computes the recurrence |
| `EditDistance.BestScript` | web/app.js:1002-1015 | some script of insertions, deletions and substitutions costs that much |
| `EditDistance.NoCheaper` | web/app.js:1002-1015 | no script costs less |
| `EditDistance.DistIsLeast` | web/app.js:1002-1015 | the result is the minimum number of edits between the strings |
| `EditDistance.ZeroIffEqual` | web/app.js:1002-1015 | zero only on equal strings |
| `EditDistance.Symmetric` | web/app.js:1002-1015 | the same both ways |
| `EditDistance.Compose` | web/app.js:1002-1015 | two scripts run one after the other make a script that costs no more than both |
| `EditDistance.Triangle` | web/app.js:1002-1015 | the triangle inequality |
| `Csv.ParseLine` | crates/issundb-cli/src/main.rs:2717-2740 | the character loop computes the fields of the line |
| `Csv.TrimIs` | crates/issundb-cli/src/main.rs:2717-2740 | trimming leaves the slice with only spaces outside of it and none at its ends |
| `Csv.CommaSplits` | crates/issundb-cli/src/main.rs:2717-2740 | a comma after an even number of quotes ends a field there |
| `Csv.NothingElseSplits` | crates/issundb-cli/src/main.rs:2717-2740 | nothing else does: text whose commas all come after an odd number of quotes is one field, from which only quotes are missing |
| `Csv.DoubledReads` | crates/issundb-cli/src/main.rs:2717-2740 | inside quotes everything up to the closing quote is the field, doubled quotes undoubled |
| `Csv.QuotedReads` | web/app.js:2533-2537 | a field as the playground quotes it is read as that field |
| `Csv.RowReadsBack` | web/app.js:2533-2541 | a written row reads back field for field, each trimmed (section 2 of RFC 4180 for the quoting) |
| `Csv.TrimKeepsIff` | crates/issundb-cli/src/main.rs:2717-2740 | trimming keeps a field exactly when it has no space at either end |
| `Csv.RowUnchangedIff` | web/app.js:2533-2541 | a row reads back unchanged if and only if no field has a space at either end |
| `Csv.QuotedOnlyIf` | web/app.js:2533-2541 | a field is written as it is if and only if it holds no quote, comma or newline |
| `Csv.NewlinesAreQuoted` | web/app.js:2533-2541 | every newline of a written row is inside quotes |
| `EdgeImport.SortedPairsSorted` | crates/issundb-cli/src/main.rs:3164 | the pairs ascend by source and then by target, and none is lost or repeated |
| `EdgeImport.SortIsUnique` | crates/issundb-cli/src/main.rs:3164 | there is only one sorted order, so an unstable sort may be used |
| `EdgeImport.CommittedPrefix` | crates/issundb-cli/src/main.rs:3040-3061 | committed batches are a prefix of the pairs, all of them when no transaction fails |
| `EdgeImport.ResolveEach` | crates/issundb-cli/src/main.rs:3009-3037 | the pairs resolved on both ends, in order |
| `EdgeImport.BlankIff` | crates/issundb-cli/src/main.rs:3129-3133 | a line is blank exactly when it holds only spaces |
| `EdgeImport.KeysOfWritten` | crates/issundb-cli/src/main.rs:3139-3156 | the keys of a written row are its first two fields without the spaces around them; a row with fewer fields, or with one of them blank, is malformed |
| `EdgeImport.Import.ResolveBatch` | crates/issundb-cli/src/main.rs:3009-3037 | the buffered pairs are resolved or counted as unresolved, and the buffer is empty; it fails exactly when the read does |
| `EdgeImport.Import.InsertResolved` | crates/issundb-cli/src/main.rs:3040-3061 | exactly the whole batches before the first failing transaction are committed, and `inserted` counts them |
| `EdgeImport.Import.TakeRow` | crates/issundb-cli/src/main.rs:3138-3156 | a row is buffered, resolved in its batch once that is full, or counted as malformed |
| `EdgeImport.Import.ReadRows` | crates/issundb-cli/src/main.rs:3128-3160 | blank lines and the header are skipped and every other row is accounted for, up to the first line or batch that fails |
| `EdgeImport.Import.WriteAll` | crates/issundb-cli/src/main.rs:3163-3166 | the rest is resolved, then the sorted pairs are written |
| `EdgeImport.Import.Run` | crates/issundb-cli/src/main.rs:3102-3167 | on success inserted + unresolved + malformed is the number of data rows and the edges are the sorted resolved pairs whatever the batch size; a failure is the first one met and leaves exactly the committed prefix; pairs are resolved in full batches but the last |

## Left out

- LMDB transactions, the memory mapping itself, file rename and set-aside handling, raw pointers: operating-system
  behaviour. A mapped file is an immutable byte sequence, publishing an atomic replacement.
- The msgpack serializer: a parameter (`ColumnsFile.Codec`) whose only assumed law is that decoding undoes encoding, for
  cells that hold no null value.
- `serde_json` formatting: the grouping key of the fallback column is a parameter assumed to tell the column's
  values apart.
- UTF-8 and Unicode: a string is its bytes, and which characters trimming removes is a parameter of `Csv` and
  `EdgeImport`.
- Rounding of double arithmetic in selectivities: reals are used. Rounding of integers to doubles is modelled.
- Infinities and NaN: stored JSON holds neither; a cache file holding one has no table in `CacheTables`.
- Weights of the adjacency snapshot are their bits; their arithmetic is not part of the model.
- The name order in which columns are saved: the file round trip holds for every order.
- `usize` conversions that fail on a 32-bit target, and running out of memory.
- PropertyColumns.PropColumns.FromItemsFor: at most 2^32 - 1 items, and one record an id. Past that the code truncates
  positions, as `DenseIndex.Index.FromIds` says of the index alone; its callers read all items in one transaction.
- PropertyColumns.PropColumns.FromCacheFile: only around arrays with clear tails, injective dictionaries and distinct
  ids. The code wraps any arrays it can map; `CacheTables.SavedFileIsBuildable` shows that a saved file's are such.
- Column.PropColumn.FromRaw: only around arrays with clear tails and injective dictionaries, for the same reason.
- PropertyColumns.PropColumns.Patch: asks for room, 32 bits for dense indexes and dictionary codes. Past them the code
  is described for one column (`Column.PropColumn.Set`) and for the index (`DenseIndex.Index.Push`) only.
- PropertyColumns.PropColumns.PatchChunk: asks for the same room.
- PropertyColumns.PropColumns.PatchAll: asks for the same room, for all its refreshes together.
- PropertyColumns.LoadThenPatch: asks for the same room and for the same arrays as `FromCacheFile`.
- ColumnSets.WriteSlot: asks that the dictionary of the column is not at its 32-bit limit; what the code does there is
  described by `Column.PropColumn.Set`.
- ColumnSets.SetRecord: asks the same of every column.
- ColumnSets.PatchSlots: asks the same of every column.
- Builders.PushRecord: slots below 2^32 - 1; a single column past them is described by `Column.ColumnBuilder.Push`.
- Builders.Scan: at most 2^32 - 1 items, for the same reason.
- Builders.BuildColumns: at most 2^32 - 1 items, for the same reason.
- PropertyColumns.PropColumns.PatchEntity: asks for the same room; ids are those the allocator can hand out, so the
  largest 64-bit id is not one of them.
- ColumnParts.StrDict.FromParts: does not model the refusal of entries that are not UTF-8, because a string is its
  bytes.
- Arrays.Array.MapFile: does not model the refusal of a misaligned region, because its file is an array of elements;
  `CacheBytes.Mapped` models it over bytes.
- CsrFile.LoadCsr: its result is the arrays; `CsrFile.LoadSnapshot` adds the index derived from them.
- The direct-read counter and `should_serve_directly`, which only choose between two ways to the same answer.
- `IdGroupCodes` and its cache, and the graph-level wrappers of grouping: they reuse what is proved of `group_codes`.
- `ColumnsCache` as a class with locks: it is a state machine whose steps are the atomic regions, so it captures the
  interleavings, not the locks' implementation. Pending ids of a full refresh are cleared as the code does.
- Predicates, projection and row normalization of the reference evaluator: they select and print assignments one by
  one, after the enumeration modelled here has ended. Query generation and shrinking.
- Trails.CountTrails: counts are unbounded, the source's are 64-bit with 8-bit hop counts.
- Reading errors of the cache writers and of opening an import file: `EdgeImport` models failures of reading a line,
  resolving a batch and writing a batch.
- The Parquet branch of the edge import, which feeds the same batches.
- The join of CSV lines and the conversion of values to strings in the playground, its neighborhood view, and the
  statement splitter of the command line.
- Graph algorithms, the Cypher parser, planner and executor, and the construction of the adjacency snapshot.
