# A verified model of the expression-browser data path

This project models the core of a gene-expression browser in Dafny. The system
has two halves:

- **The build pipeline** (`pipeline/main.py`) reads expression matrices (CSV files, one per dataset).
  - It sorts and annotates their rows.
  - It merges all datasets gene by gene.
  - It writes each accepted gene's reordered matrix rows as independently compressed frames to one binary range log.
  - It records, per dataset, a sparse index from written genes to row numbers, with its transcript tables.
- **The web front end** (`frontend/src/lib/...`) uses that index and the frames' byte ranges.
  - For a selected row it plans one HTTP `Range` request and cuts each matrix's bytes out of the streamed body.
  - It also filters the result table, reads and writes URL parameters, loads custom CSV matrices, and strips NUL padding from HDF5 strings.

Each source file becomes one Dafny module, in the form the source has:

- **Loops become methods with loop invariants:**
  - `safe_access_nested`, `iterate_unique`, `count_unique`, `get_reorder_indices`;
  - the sample set-up, `accumulate_iterator`, `parallel_iterator`, the mutation pass;
  - the gene loop, the request planning and body loop, and the cursor search.
- **Buffers the source mutates stay arrays:**
  - the reorder buffer;
  - the response buffer `chunksAll`;
  - the arrays `findMatchesSorted` sorts in place.
- **Objects that change state are classes:**
  - the range writer;
  - the gene loop's `annots_written`, the `total_written` counter and the per-dataset lists.
- **Expression-only code becomes functions**, with lemmas stating what they guarantee.

Each module's methods are proved against a specification function. The properties the code promises are proved about that function. The main ones are:

- round trips:
  - every handle of the range log reads back its row;
  - a URL parameter written with `set` reads back;
  - a split string joins back to the original;
- the merge is the full outer join of strictly ascending streams, and it is unique;
- the run grouping is the unique maximal-run split;
- the transcript tables stay in lockstep with the rows written, and every complete group's sparse-index entry names its row; under the index rule as written, the reverse index matches the rows exactly when no written gene has a partial group;
- a byte-exact response delivers every stream exactly its range of the file;
- the single-term filter keeps exactly the matching rows.

Modules:

| module | file | source |
|---|---|---|
| `Wrappers` | wrappers.dfy | `Option` and `Result` |
| `PyHelpers` | pyhelpers.dfy | `pipeline/main.py`: `safe_access_nested`, `pad_elipses`, `iterate_unique`, `count_unique` |
| `Reorder` | reorder.dfy | `pipeline/main.py`: `get_reorder_indices`, `apply_reorder_indices` |
| `RangeCodec` | rangecodec.dfy | `pipeline/main.py`: `write_compressed_ranges`, `read_compressed_ranges` |
| `SortedCsv` | sortedcsv.dfy | `pipeline/main.py`: `iterate_csv`, the mutation pass of `iterate_csv_sorted`, the two row mutators |
| `Accumulate` | accumulate.dfy | `pipeline/main.py`: `accumulate_iterator` |
| `MergeJoin` | mergejoin.dfy | `pipeline/main.py`: `parallel_iterator` |
| `Samples` | samples.dfy | `pipeline/main.py`: sample whitelist, metadata columns, filter indices |
| `Orchestrator` | orchestrator.dfy | `pipeline/main.py`: the gene loop and its bookkeeping, the reverse index |
| `RangeRequests` | rangerequests.dfy | `frontend/src/lib/stores/core.js`: the row loader |
| `Results` | results.dfy | `frontend/src/lib/stores/results.js` |
| `Params` | params.dfy | `frontend/src/lib/stores/param.js` |
| `Custom` | custom.dfy | `frontend/src/lib/stores/custom.js` |
| `Hdf5` | hdf5.dfy | `frontend/src/lib/utils/hdf5.js` |

JavaScript semantics are written out after ECMA-262, and the relevant section is cited at each definition:

- ToBoolean, ToString, StringToNumber, loose equality and `parseInt`;
- `split`, `trim`, stable `sort`, and `subarray`/`set` on typed arrays;
- the RegExp `.` and `$`.

The query list follows the URLSearchParams interface of the WHATWG URL Standard. The `Range` header follows section 14.1.2 of RFC 9110.

Where the system's written description differs from the code, the model follows the code:

- `apply_reorder_indices` does not clear the buffer, so stale slots survive (`Reorder.StaleSlotSurvives`);
- a gene without an annotation is skipped, not treated as fatal;
- the `MIN_HITS` test comes before the annotation test;
- `accumulate_iterator` on an empty input yields one `(None, [])` group;
- an absent transcript group gets index -1 and no row.

The empty stream state `Empty` stands for the object `{emtpy: true}`, whose key core.js spells that way.

## Model

| member | source | states |
|---|---|---|
| PyHelpers.SafeAccessNested | pipeline/main.py:10-14 | The loop returns what the index path reaches. It returns the default as soon as a step meets a non-sequence or an index with `abs(index) >= len(data)`. |
| PyHelpers.WalkAppend | pipeline/main.py:10-14 | Walking a concatenated path is walking its first part, then the second from where the first ended. |
| PyHelpers.WalkNegative | pipeline/main.py:12 | A negative index counts from the end, except `-len(data)`: the `abs` guard rejects that index although Python would accept it. |
| PyHelpers.WalkStaysFailed | pipeline/main.py:12 | Once a walk has failed, no longer path recovers a value. |
| PyHelpers.SliceTo | pipeline/main.py:49 | Python's `s[:stop]`: the result is a prefix, of length `min(stop, len)` for a non-negative stop, and clamped at 0 when counting from the end. |
| PyHelpers.PadEllipses | pipeline/main.py:46-50 | For every length of at least 3 the result has exactly that length. A short string ends the result, after spaces only. A long one keeps a prefix of itself and ends with the ellipsis. |
| PyHelpers.PadEllipsesShortLength | pipeline/main.py:49 | Below length 3 the negative slice bound keeps more characters than `length` allows. |
| PyHelpers.IterateUnique | pipeline/main.py:52-59 | The generator run to the end yields `Unique(a, key, None)`: an item is yielded exactly when its key differs from the last yielded key. |
| PyHelpers.UniqueIsSubsequence | pipeline/main.py:52-59 | The yielded items are a subsequence of the input. |
| PyHelpers.UniqueAdjacentDistinct | pipeline/main.py:52-59 | No two consecutive yielded items share a key, and the first differs from the starting key. |
| PyHelpers.UniqueCoversKeys | pipeline/main.py:52-59 | Every key of the input other than the starting one is the key of some yielded item. |
| PyHelpers.UniqueIdempotent | pipeline/main.py:52-59 | Filtering a filtered stream again changes nothing. |
| PyHelpers.ExampleUnique | pipeline/main.py:52-59 | `a a b a` yields `a b a`: only consecutive repeats go. |
| PyHelpers.CountUnique | pipeline/main.py:112-118 | The result is the number of distinct values capped at the limit. A non-empty input counts at least 1, even for a limit of at most 1. |
| Reorder.LastIndexOf | pipeline/main.py:122-123 | The dictionary lookup finds the last position holding the value, and None exactly when the value is absent. |
| Reorder.GetReorderIndices | pipeline/main.py:120-124 | Entry i is the last position of `target[i]` in the observed order, or None. |
| Reorder.ApplyReorderIndices | pipeline/main.py:126-131 | The buffer array is updated in place and returned. A slot whose step is present and inside the input takes that input value. Every other slot keeps its old contents. |
| Reorder.FreshReorderSelects | pipeline/main.py:120-131 | Through a fresh buffer, slot i holds `target[i]` exactly when it occurs in the observed order, and None otherwise. |
| Reorder.ReorderCoversTarget | pipeline/main.py:120-131 | When every target entry is observed, reordering reproduces the target exactly, duplicates included. |
| Reorder.ReorderIdempotent | pipeline/main.py:126-131 | Applying the same mapping and input twice is applying it once. |
| Reorder.StaleSlotSurvives | pipeline/main.py:126-131 | A slot filled from a longer row survives a later shorter row that does not reach it. |
| Reorder.ExampleReorder | pipeline/main.py:120-131 | Target `z b c a` over the observed order `b a c z` gives back the target. |
| Reorder.ExampleReorderMissing | pipeline/main.py:120-131 | A target entry that was never observed leaves its slot None. |
| Reorder.ExampleReorderSubset | pipeline/main.py:120-131 | Observed entries outside the target are ignored. |
| RangeCodec.ReadBytes | pipeline/main.py:164-166 | `seek` and `read` of an in-bounds range give exactly those bytes of the log. |
| RangeCodec.ReadRow | pipeline/main.py:163-181 | A row is read only from a range whose bytes decompress. A failure is an error value. |
| RangeCodec.Handles | pipeline/main.py:146-157 | One handle per row written. |
| RangeCodec.RangeWriter.constructor | pipeline/main.py:145 | The file opened for writing starts empty. |
| RangeCodec.RangeWriter.Tell | pipeline/main.py:157 | `f.tell()` is the length of the log written so far. |
| RangeCodec.RangeWriter.WriteRow | pipeline/main.py:146-156 | One call appends the row's frame to the log. It returns the `(start, end)` range the frame occupies, which starts at the old end of the log. |
| RangeCodec.WriteOneMore | pipeline/main.py:146-156 | One more write extends the log by its frame and the handles by its range. |
| RangeCodec.LogAppend | pipeline/main.py:146-156 | The log of two write sequences is the concatenation of their logs. |
| RangeCodec.LogPrefix | pipeline/main.py:146-156 | A prefix of the rows wrote a prefix of the log. |
| RangeCodec.HandleCoversFrame | pipeline/main.py:146-156 | Handle k starts after the frames before it and spans exactly its own frame. |
| RangeCodec.HandlesContiguous | pipeline/main.py:146-156 | The handles tile the log: each ends where the next begins, the first starts at the base, and the last ends at the end of the log. |
| RangeCodec.ReadBack | pipeline/main.py:143-183 | Reading any handle of a log written from scratch gives back its row, in any read order. This assumes the codec's round trips. |
| RangeCodec.FrameAt | pipeline/main.py:143-183 | Handle k reads exactly frame k. |
| RangeCodec.ReadFrame | pipeline/main.py:163-181 | A range holding one frame decodes to the row it was written from. |
| RangeCodec.WriterReadBack | pipeline/main.py:143-183 | For every row a writer object has written, its handle reads that row back. |
| SortedCsv.Drop | pipeline/main.py:197-201 | Python's `s[n:]`: its length is `len - n`, or 0 when n is past the end. |
| SortedCsv.DropComments | pipeline/main.py:190 | The comment filter never adds rows. |
| SortedCsv.IterateCsv | pipeline/main.py:185-205 | The read fails exactly when the second row is empty. No row gives an empty header, a single row is the header, and otherwise there is one data row per row after the first. |
| SortedCsv.IterateCsvColumns | pipeline/main.py:196-201 | With two rows or more, every data row loses the same leading cells, one when `strip_numeric` applies to a numeric first cell. The header is always the last cells of the first row, one fewer when that row is as wide as the second. When the first row is that wide or one cell short, the header names every data column but the row-name one. |
| SortedCsv.DropCommentsKeeps | pipeline/main.py:190 | A row survives the filter exactly when it is empty or does not start with the marker. |
| SortedCsv.ReadBackWritten | pipeline/main.py:224-244 | Re-reading the sorted file written with an empty corner cell gives back the headers and the rows. |
| SortedCsv.StripNumericDropsFirstCell | pipeline/main.py:199-201 | With `strip_numeric` and a numeric first cell, every data row loses exactly that cell. |
| SortedCsv.Mutate | pipeline/main.py:371-374 | One mutator call fails exactly on an empty row. The gene mutator keeps rows annotated in the gene map, and the transcript mutator rows annotated in the transcript map. Without a mutator a non-empty row is kept unchanged. |
| SortedCsv.MutationPass | pipeline/main.py:220-231 | The loop writes the header with an empty corner, then every kept row after its mutation. It logs the first cell of every rejected row. It fails when the pass fails. |
| SortedCsv.PassOkIff | pipeline/main.py:220-232 | The pass fails exactly when some row is empty. |
| SortedCsv.PassPartitions | pipeline/main.py:220-232 | Every row lands in exactly one of the two outputs. |
| SortedCsv.PassKeptSound | pipeline/main.py:220-232 | Every written row is the mutator's output for an input row it accepted. |
| SortedCsv.PassKeptComplete | pipeline/main.py:220-232 | Every row the mutator accepts is written. |
| SortedCsv.PassFailed | pipeline/main.py:220-232 | The logged ids are exactly the first cells of the rejected rows. |
| SortedCsv.GeneRowMutatorRewrites | pipeline/main.py:389-392 | The gene mutator accepts exactly the annotated rows. It rewrites only the first cell, to the canonical id. |
| SortedCsv.TranscriptRowMutatorPrepends | pipeline/main.py:371-374 | The transcript mutator accepts annotated rows and prepends their gene id. |
| Accumulate.AccumulateIterator | pipeline/main.py:313-324 | An empty input yields one `(None, [])` group. Any other input is split into non-empty maximal runs of one key, which concatenate back to the input. |
| Accumulate.StartRun | pipeline/main.py:318-323 | The first item opens the first run. |
| Accumulate.OpenRun | pipeline/main.py:318-322 | An item with a new key closes the open run and opens its own. |
| Accumulate.ExtendRun | pipeline/main.py:323 | An item with the open run's key joins that run. |
| Accumulate.FlattenEmpty | pipeline/main.py:313-324 | A run grouping is empty exactly when its input is. |
| Accumulate.TailGrouping | pipeline/main.py:313-324 | The first group is a prefix of the input, and the other groups split the rest. |
| Accumulate.RunGroupingUnique | pipeline/main.py:313-324 | The maximal-run split is unique, so the method's contract fixes its result. |
| Accumulate.FirstOfTail | pipeline/main.py:318-322 | The item after the first group has a different key. |
| Accumulate.ExampleAccumulate | pipeline/main.py:313-324 | `1 1 5 5 3 3` groups into `(1,[1,1]) (5,[5,5]) (3,[3,3])`. |
| MergeJoin.Live | pipeline/main.py:329-331 | A stream is read up to, not including, its first falsy item. |
| MergeJoin.MinKey | pipeline/main.py:334-335 | The minimum is None exactly when no head is left. Otherwise it is some head's key. |
| MergeJoin.MinKeyIsMinimal | pipeline/main.py:334-335 | Under a strict order, no head's key is below the minimum. |
| MergeJoin.ParallelIterator | pipeline/main.py:326-343 | The loop yields well-formed groups through which each stream's live items pass exactly once, in order. For strictly ascending streams the group keys ascend strictly. |
| MergeJoin.AdvanceStreams | pipeline/main.py:341-343 | Exactly the streams that contributed to the group move to their next head. |
| MergeJoin.Step | pipeline/main.py:333-343 | One round keeps the loop invariant and consumes at least one item. |
| MergeJoin.Exhausted | pipeline/main.py:333 | When no head is left, everything has been merged. |
| MergeJoin.MergeIsOuterJoin | pipeline/main.py:326-343 | For ascending input every filled slot holds a live item of that stream with the group's key. Every live item sits in the group of its key. |
| MergeJoin.AscendingUnique | pipeline/main.py:326-343 | Two strictly ascending key lists with the same members are equal. |
| MergeJoin.OuterJoinUnique | pipeline/main.py:326-343 | For ascending input there is only one result that meets the method's contract. |
| MergeJoin.KeyIsLive | pipeline/main.py:326-343 | A group key of one merge result is a group key of any other. |
| MergeJoin.ExampleMerge | pipeline/main.py:326-343 | For streams `1 2 3 4` and `1 3 0 5` the only result is the four groups 1 to 4, with the falsy 0 ending the second stream. |
| MergeJoin.ExampleExpected | pipeline/main.py:326-343 | Those four groups do meet the contract. |
| Samples.UnionOfHeaders | pipeline/main.py:667-669 | The union loop collects exactly the samples of some matrix header. |
| Samples.SortedMembers | pipeline/main.py:671 | `sorted(set)` lists exactly the set's members in strictly ascending order. |
| Samples.SampleWhitelist | pipeline/main.py:667-671 | The whitelist is ascending. It holds exactly the samples named both by some matrix header and by the metadata. |
| Samples.LeastExists | pipeline/main.py:671 | Every non-empty set of strings has a least element in Python's order. |
| Samples.AscendingDistinct | pipeline/main.py:671 | The whitelist holds no repeats. |
| Samples.PresentAllSome | pipeline/main.py:674 | When every entry is present, dropping None keeps all of them, in order. |
| Samples.ColumnIndicesSelect | pipeline/main.py:674 | Every whitelisted sample occurs in the metadata, so no entry is filtered out. Column k is the last metadata row of whitelisted sample k. |
| Samples.FilterIndices | pipeline/main.py:690-692 | The loop fails exactly when a factor is out of range. Otherwise category c lists the positions whose factor addresses c. |
| Samples.PositionsExact | pipeline/main.py:690-692 | A position is listed under a category exactly when its factor addresses that category. The lists ascend. |
| Samples.PositionsPartition | pipeline/main.py:690-692 | No position is listed under two categories. |
| Samples.ExampleFilterIndices | pipeline/main.py:687-692 | A sample absent from a matrix (a None factor after the reorder) lands in no category. |
| Orchestrator.Values | pipeline/main.py:733-740 | A complete group writes one value per matrix. |
| Orchestrator.TableStepOk | pipeline/main.py:767-784 | One transcript step keeps the table's shape. |
| Orchestrator.TableStepKeeps | pipeline/main.py:767-784 | One step keeps every entry already recorded. |
| Orchestrator.TableStepReadsBack | pipeline/main.py:767-784 | After a step, every present slot reads back its rows through its index entry and offsets. |
| Orchestrator.TableRunRecords | pipeline/main.py:767-784 | A table fed from scratch records every slot. An absent slot gets -1. A present one gets strictly increasing entries whose offset range is its rows. |
| Orchestrator.TablesStep | pipeline/main.py:768 | The `zip` touches no table beyond the slots. |
| Orchestrator.TableSlots | pipeline/main.py:768 | One slot per row written. |
| Orchestrator.DatasetStepKeeps | pipeline/main.py:720-784 | Corrected half of the first finding: with -1 for every gene that gets no row, one written gene keeps every dataset fact: index, reverse index, variance-partition rows and transcript tables. |
| Orchestrator.DatasetRunRecords | pipeline/main.py:720-784 | Corrected half of the first finding: with -1 for every gene that gets no row, the sparse index names each written gene's row and the reverse index names each row's gene. The variance-partition rows and transcript tables have one entry per row. |
| Orchestrator.CompleteHitsCount | pipeline/main.py:723-728 | Under the corrected entry rule, the row counter equals the number of complete groups. |
| Orchestrator.ReverseCountsComplete | pipeline/main.py:723-726 | Under the corrected entry rule (-1 exactly for a gene without a complete group), the reverse index has one entry per complete group. |
| Orchestrator.ReverseIndicesExact | pipeline/main.py:896 | For any index, the reverse index lists exactly the positions whose entry is not -1, in ascending order. |
| Orchestrator.AsWrittenIndexAdvance | pipeline/main.py:723-728 | One step of line 723 as written keeps the index facts. An entry is -1 exactly for an absent group. A present group, partial or complete, gets the number of rows written before it. A complete group's entry names its own row. The reverse index has one entry per present group. |
| Orchestrator.AsWrittenIndexRun | pipeline/main.py:720-728 | A dataset fed from scratch with line 723 as written records those index facts for every written gene. |
| Orchestrator.AsWrittenShadow | pipeline/main.py:723 | The run as written and the corrected run differ only in the sparse index. Rows, counter, variance-partition rows and transcript tables agree. |
| Orchestrator.DatasetRunAsWrittenRecords | pipeline/main.py:720-784 | What the program keeps per dataset. The index facts of line 723 as written hold, with one reverse entry per present group. The counter equals the rows written and the complete groups. The variance-partition rows and the transcript tables advance with the rows. |
| Orchestrator.PartialCountsExtra | pipeline/main.py:723-726 | There are never more complete groups than present ones, and the counts are equal exactly when no present group is partial. |
| Orchestrator.ReverseMatchesRowsIff | pipeline/main.py:723-896 | As written, the reverse index has at least one entry per row, and exactly one per row exactly when no written gene had a partial group. |
| Orchestrator.TranscriptLockstep | pipeline/main.py:767-896 | In the run as written, every transcript table has one index entry per matrix row written. |
| Orchestrator.PartialGroupAliases | pipeline/main.py:723-726 | As written, a partial group gets the current counter but no row. It aliases the next complete gene's row, and the reverse index outgrows the rows. |
| Orchestrator.PartialGroupDropped | pipeline/main.py:723-726 | With -1 for a dropped group, the same genes give a consistent index. |
| Orchestrator.StepDatasets | pipeline/main.py:720-784 | Every dataset takes its own group of the gene, with line 723's entry as written. |
| Orchestrator.RunExtends | pipeline/main.py:720-784 | One more written gene extends every dataset's run, as written, by that gene's group. |
| Orchestrator.GeneLoop.constructor | pipeline/main.py:640-704 | Every dataset starts with empty lists and one fresh table per transcript matrix, and nothing has been written. |
| Orchestrator.GeneLoop.ProcessGene | pipeline/main.py:710-784 | A gene is written exactly when it has enough matrix hits and an annotation. Writing it appends to `annots_written`, increments `total_written` and steps every dataset as line 723 is written. A rejected gene changes nothing. |
| Orchestrator.GeneLoop.ProcessGenes | pipeline/main.py:708-784 | The loop writes, in order, exactly the accepted genes' groups and annotations. |
| Orchestrator.GeneLoopRecords | pipeline/main.py:708-784 | Every dataset's sparse index has one entry per written gene. It records that gene's groups as `DatasetRunAsWrittenRecords` states. The reverse index matches the rows exactly when no written gene had a partial group. |
| Orchestrator.AcceptedStep | pipeline/main.py:715-716 | One more gene adds its groups and annotation exactly when it is accepted. |
| Orchestrator.AcceptedGroupsExact | pipeline/main.py:715-716 | Every written gene had at least `MIN_HITS` matrix groups, and every gene meeting the rule was written. |
| RangeRequests.PlanRequests | frontend/src/lib/stores/core.js:93-110 | A stream whose index entry is present gets `loading` and a request for its offsets. Every other stream is marked empty. The requests are in stream order and cover every wanted stream. |
| RangeRequests.Insert | frontend/src/lib/stores/core.js:111 | An insertion adds exactly one element. |
| RangeRequests.InsertSorted | frontend/src/lib/stores/core.js:111 | Inserting keeps the start order. |
| RangeRequests.InsertLex | frontend/src/lib/stores/core.js:111 | Inserting a later id keeps ties in id order. |
| RangeRequests.SortByStartSorted | frontend/src/lib/stores/core.js:111 | The sort orders by start. |
| RangeRequests.SortByStartPermutes | frontend/src/lib/stores/core.js:111 | The sort is a permutation. |
| RangeRequests.SortByStartStable | frontend/src/lib/stores/core.js:111 | The sort is stable: equal starts keep their id order. |
| RangeRequests.RangeHeaderSpans | frontend/src/lib/stores/core.js:117 | The one header's byte range contains every request. |
| RangeRequests.FailAll | frontend/src/lib/stores/core.js:121-128 | The same error goes to every stream, in stream order. |
| RangeRequests.FitCount | frontend/src/lib/stores/core.js:139 | The inner loop stops on the first request whose bytes have not all arrived. |
| RangeRequests.Subarray | frontend/src/lib/stores/core.js:140 | An in-bounds `subarray` is exactly that slice. |
| RangeRequests.Parts | frontend/src/lib/stores/core.js:139-150 | One part per request. |
| RangeRequests.PartsExtend | frontend/src/lib/stores/core.js:134-151 | Data arriving later does not change a part already cut. |
| RangeRequests.DispatchArrived | frontend/src/lib/stores/core.js:139-150 | The inner loop cuts the parts of exactly the following requests that have arrived, in order. |
| RangeRequests.SetAt | frontend/src/lib/stores/core.js:137 | `set(value, at)` overwrites the buffer from `at` with the chunk and keeps the bytes before it. |
| RangeRequests.ReadBody | frontend/src/lib/stores/core.js:134-151 | The body loop delivers the parts `Streamed` specifies. It stops when a chunk overruns the buffer. |
| RangeRequests.ReadChunk | frontend/src/lib/stores/core.js:135-150 | One chunk that fits keeps the body loop's invariant. |
| RangeRequests.Deliver | frontend/src/lib/stores/core.js:124-151 | A 206 response is handled as `Delivery` specifies: a length error on every stream where the length differs, a RangeError for a negative length, then the body loop. |
| RangeRequests.ServedRange | frontend/src/lib/stores/core.js:117-151 | When the server answers with exactly the requested span of the file, the handler ends normally, and every stream gets exactly the bytes its range names in the file, in start order. |
| RangeRequests.StreamedAll | frontend/src/lib/stores/core.js:134-151 | A body exactly as long as the span delivers every request. |
| RangeRequests.StreamedGrows | frontend/src/lib/stores/core.js:134-151 | What was cut after the first chunks stays a prefix of what is cut later. Nothing is delivered twice, and parts come in sorted order. |
| RangeRequests.SortedPlan | frontend/src/lib/stores/core.js:93-111 | The sorted plan is empty exactly when no stream is wanted. Otherwise it holds the wanted streams' requests in stable start order. |
| RangeRequests.LoadRow | frontend/src/lib/stores/core.js:88-151 | The handler marks every stream first. It ends with the TypeError of `requests[0]` exactly when no stream is wanted. Otherwise it sends one header covering a request for every wanted stream and no other, then publishes either an error per stream for a status other than 206, or the delivery. |
| Results.CodeUnitConsistent | frontend/src/lib/stores/results.js:4-5 | The default string order is a consistent comparator. |
| Results.FoldConsistent | frontend/src/lib/stores/results.js:12 | So is the case-folding comparison that stands for `localeCompare`. |
| Results.InsertBy | frontend/src/lib/stores/results.js:4-5 | An insertion adds exactly one element. |
| Results.SortBy | frontend/src/lib/stores/results.js:4-5 | The sort is a permutation. |
| Results.InsertBySorted | frontend/src/lib/stores/results.js:4-5 | Inserting keeps a list sorted. |
| Results.SortBySorted | frontend/src/lib/stores/results.js:4-5 | The sort orders by the comparator. |
| Results.SortInPlace | frontend/src/lib/stores/results.js:5 | `a.sort()` leaves the old contents in code-unit order. |
| Results.Advance | frontend/src/lib/stores/results.js:11-14 | The cursor passes only elements below the term and stops on the first that is not below it, or at the end. |
| Results.MatchTerm | frontend/src/lib/stores/results.js:9-19 | One term keeps the cursors valid. |
| Results.MatchTermMoves | frontend/src/lib/stores/results.js:9-19 | Cursors only move forward, over elements below the term, and arrays before the start are untouched. |
| Results.MatchTermFacts | frontend/src/lib/stores/results.js:9-19 | Arrays before the hit advance without a hit. The hit is on the advanced cursor. Arrays after the hit are untouched (`break`). |
| Results.Hits | frontend/src/lib/stores/results.js:8-20 | At most one pushed index per term. |
| Results.HitsSound | frontend/src/lib/stores/results.js:8-20 | Every pushed index compares equal to its term, in term order. |
| Results.AdvanceInPlace | frontend/src/lib/stores/results.js:10-14 | The `while` moves `indices[i]` where `Advance` says. The last comparison is zero exactly on a hit. |
| Results.MatchTermInPlace | frontend/src/lib/stores/results.js:9-19 | The inner `for` moves the cursors as `MatchTerm` says and reports its hit. |
| Results.SortAll | frontend/src/lib/stores/results.js:5 | Every array is sorted in place. |
| Results.SearchSorted | frontend/src/lib/stores/results.js:6-21 | On sorted arrays the loops return the positions of `Hits`. |
| Results.FindMatchesSorted | frontend/src/lib/stores/results.js:3-22 | The terms and every array are sorted in place by code units. Then the positions the search specifies are returned. |
| Results.CodeUnitSortMisses | frontend/src/lib/stores/results.js:4-12 | A term present in an array is missed when the code-unit sort puts an element that compares above the term in front of it. |
| Results.SearchConsistent | frontend/src/lib/stores/results.js:3-22 | The corrected search returns at most one hit per term. |
| Results.HitsComplete | frontend/src/lib/stores/results.js:8-20 | With arrays and terms in the comparator's order, every term equal to some element gets a hit. |
| Results.SearchConsistentComplete | frontend/src/lib/stores/results.js:3-22 | The corrected search finds every term that equals an element of some array. |
| Results.ConsistentSortFinds | frontend/src/lib/stores/results.js:3-22 | The corrected search finds the term that `CodeUnitSortMisses` loses. |
| Results.BoolToIndices | frontend/src/lib/stores/results.js:43 | The result is exactly the positions of the truthy entries, ascending. |
| Results.GeneralFlags | frontend/src/lib/stores/results.js:46 | A heading is general exactly when it is neither a dataset nor a database. |
| Results.IndexClasses | frontend/src/lib/stores/results.js:44-46 | The three index lists cover every heading, and no general heading is in the other two. |
| Results.DatasetColumn | frontend/src/lib/stores/results.js:48 | -1 becomes minus infinity. Any other in-range code becomes the scaled value it indexes, and an out-of-range one becomes `undefined`. |
| Results.DatasetColumnMonotone | frontend/src/lib/stores/results.js:48 | Over an ascending scale the mapped column orders rows as their codes do, with missing values first. |
| Results.Columns | frontend/src/lib/stores/results.js:48 | The general columns come unchanged, then the mapped dataset columns, then the mapped database columns. |
| Results.SearchTerms | frontend/src/lib/stores/results.js:62 | One term per comma-separated piece, and never none. |
| Results.OneTermIffNoComma | frontend/src/lib/stores/results.js:62-65 | The search is a single term exactly when it has no comma. That term is the trimmed, lower-cased search. |
| Results.Searchable | frontend/src/lib/stores/results.js:66 | The searched columns are exactly the string columns with a visible heading, ascending. |
| Results.RowMatches | frontend/src/lib/stores/results.js:67 | `some` is true only on a matching cell and false only when no cell matches. It throws only on a non-string cell. |
| Results.FilterRows | frontend/src/lib/stores/results.js:67 | The kept rows are ascending. They are exactly the rows with a matching cell. |
| Results.SearchRows | frontend/src/lib/stores/results.js:59-67 | No search keeps every row. A search goes to the several-term branch exactly when it has a comma. |
| Results.SingleTermExact | frontend/src/lib/stores/results.js:59-67 | With one term the kept rows are exactly those where some visible string column contains the trimmed, lower-cased term, in order. |
| Results.BlankSearchKeepsAll | frontend/src/lib/stores/results.js:61-67 | A blank search keeps every row that has text in a visible string column, because every string contains the empty term. |
| Params.Get | frontend/src/lib/stores/param.js:6-10 | `get` finds the first pair with that name, or null when there is none. |
| Params.SetPairGet | frontend/src/lib/stores/param.js:12 | After `query.set`, the parameter reads back the new value, and the other pairs are unchanged. |
| Params.SetPairKeepsOthers | frontend/src/lib/stores/param.js:12 | Every other parameter keeps its value, pairs and order. |
| Params.Set | frontend/src/lib/stores/param.js:8-14 | `set(v)` navigates exactly when the current value is not loosely equal to `v`. The new query then holds `ToString(v)`. |
| Params.Decode | frontend/src/lib/stores/param.js:6 | A truthy decoded value is the result. Anything else gives the default. |
| Params.DecodeList | frontend/src/lib/stores/param.js:27-29 | An absent or empty value gives `[]`. Any other splits on the separator. |
| Params.DecodePalette | frontend/src/lib/stores/param.js:31-39 | The comma split is used when no size is fixed or when the sizes match. Otherwise the default palette. |
| Params.SplitJoin | frontend/src/lib/stores/param.js:28-34 | Joining the split pieces gives back the text. |
| Params.SplitPiecesClean | frontend/src/lib/stores/param.js:28-34 | No piece contains the separator. |
| Params.PlainAndBoolFallBacks | frontend/src/lib/stores/param.js:5-25 | An absent or empty value, and a boolean other than "true", give the default. |
| Params.IntFallBacks | frontend/src/lib/stores/param.js:19-21 | `parseInt` of an absent value ("null"), "0" and "abc" is falsy, so the default is used. |
| Params.ParseIntDecimal | frontend/src/lib/stores/param.js:20 | `parseInt("12")` is 12. |
| Params.ParseIntSigned | frontend/src/lib/stores/param.js:20 | Leading white space, a sign and trailing text are allowed: `"  -7px"` reads as -7. |
| Params.ParseIntHex | frontend/src/lib/stores/param.js:20 | The `0x` prefix selects radix 16. |
| Params.IntRoundTrip | frontend/src/lib/stores/param.js:8-21 | `set(n)` followed by a read gives back n. 0 gives the default. |
| Params.ParseIntToString | frontend/src/lib/stores/param.js:12-20 | `parseInt` reads back the decimal form of every integer. |
| Params.BoolDefaultTrueStuck | frontend/src/lib/stores/param.js:6-25 | As written, a boolean parameter with default true reads true for every query, even after `set(false)`. |
| Params.DecodeBoolExplicit | frontend/src/lib/stores/param.js:23-25 | The corrected decoder maps "true" and "false" to those values. Anything else gives the default. |
| Params.BoolRoundTrip | frontend/src/lib/stores/param.js:8-25 | With the corrected decoder, `set(b)` followed by a read gives back b, whatever the default. |
| Params.SetLooseExamples | frontend/src/lib/stores/param.js:10 | With "1" stored, `set(true)` and `set(1)` do nothing, while `set("01")` navigates. |
| Custom.KeepExact | frontend/src/lib/stores/custom.js:31 | The filter keeps exactly the rows of the given width, in order, each as often as it occurs. |
| Custom.OnComplete | frontend/src/lib/stores/custom.js:11-35 | Nothing is published for a truncated or aborted parse. Fewer than two rows is an error, and so is a header that is neither the data width nor one short. A matrix is loaded exactly when the parse finished with two rows or more and a header of the data width or one short. |
| Custom.AsCsv | frontend/src/lib/stores/custom.js:4-37 | Nothing happens without a file. Otherwise `loading` comes first. A parse error then publishes "Could not parse file: " and the error type. A finished parse publishes what the `complete` callback decides, or nothing. |
| Custom.LoadedIsSquare | frontend/src/lib/stores/custom.js:11-35 | A loaded matrix keeps the header, with the empty corner put back, and the first data row. Every row has the first data row's width, and every data row of that width survives, in order and as often as it occurs. |
| Custom.ExampleCorner | frontend/src/lib/stores/custom.js:22-31 | A header one short gets the corner. One two short is an error. A narrower data row is dropped. |
| Hdf5.StripNul | frontend/src/lib/utils/hdf5.js:2 | The replace keeps the prefix before the leftmost NUL that has no line terminator after it, or the whole string. |
| Hdf5.WithoutNulls | frontend/src/lib/utils/hdf5.js:1-3 | An array whose first element is not a string comes back unchanged. Otherwise every element is stripped, and the call throws exactly when some element is not a string. |
| Hdf5.MapStrip | frontend/src/lib/utils/hdf5.js:2 | The `map` strips every string and fails exactly on a non-string. |
| Hdf5.StripNulSingleLine | frontend/src/lib/utils/hdf5.js:2 | On single-line text the cut is at the first NUL. |
| Hdf5.StripNulNoNul | frontend/src/lib/utils/hdf5.js:2 | A string without NUL is unchanged. |
| Hdf5.ExampleMultiline | frontend/src/lib/utils/hdf5.js:2 | A NUL before a line break is not a cut point. |
| Hdf5.StripNulIdempotent | frontend/src/lib/utils/hdf5.js:2 | Stripping twice is stripping once. |
| Hdf5.WithoutNullsIdempotent | frontend/src/lib/utils/hdf5.js:1-3 | So is stripping an array twice. |

## Left out

**I/O and platform:**
- File I/O, gzip, zlib and `struct`. The codec is a parameter whose round trips are a precondition (`RangeCodec.RoundTrips`). The float32 values and their rounding are generic.
- `np.mean`, `math.log2`, and the z-score and log summaries computed from the written rows (main.py 743-750). These are floating-point statistics outside the bookkeeping.
- The external `sort` command and the file caches of `iterate_csv_sorted`, `csv` parsing and writing itself, and the progress bars. Rows are taken as already parsed.
- `manage_deploy`, `calc_s3_etag`, `parse_metadata`, `write_metadata_columns`, the HDF5 writing, the `argparse` set-up and the debug options of `parallel_iterator`. These are I/O around the core.

**Pipeline:**
- Orchestrator.Accepted: an annotation that is present but falsy would be skipped by the source. The model treats every present annotation as truthy, as the gene table's non-empty records are.
- Orchestrator: matrix rows are the values handed to the writer. The reorder and the range log are modelled separately in `Reorder` and `RangeCodec`, and not composed in the loop.
- Orchestrator: the transcript names list (`names.append`) and the float conversion of the transcript values are not tracked. The tables record the rows as given.
- RangeCodec.ReadRow: the sparse layout (`use_sparse`) is switched off in the source. The model reads it as the error `SparseLayout` instead of decoding it.
- SortedCsv.IterateCsv: `csv.reader` dialect options and the `.gz` detection are not modelled.
- SortedCsv.IsDigits: models `str.isdigit` for ASCII digits only. Python also accepts other Unicode digits, such as '²', which the model treats as non-numeric.
- Accumulate.AccumulateIterator: the source yields one list object, `acc_group`, and clears and refills it for the next run. A group is therefore valid only until the iterator's next step; a consumer that keeps it longer sees it overwritten. The model yields each group as a fresh value, so this aliasing is not captured.

**Front end:**
- The svelte stores, `derived`/`get`, `goto` and navigation options. The front-end functions take the store values as inputs and return what they would publish.
- RangeRequests: `fetch` is a parameter from the header to a response. `AbortController`, the `console.log`, the `progress` store and the asynchronous interleaving are left out.
- RangeRequests: `bufferToRow`, which decodes a part, is not part of this model. A stream receives its part's bytes, so a decoding error is not modelled.
- Results: `localeCompare` with `sensitivity: 'accent'` is the host collator's. It is modelled by an ASCII case-folding comparison `FoldCmp`, and `toLowerCase` by ASCII lower-casing.
- Results: strings are sequences of characters, not UTF-16 code units, so the default sort compares characters.
- Results: `createCombinedStore` is modelled only for the index lists and column mapping of lines 43-48. The custom-dataset splicing of lines 34-41, the HDF5 reads and the heading groups are left out.
- Results: the several-term branch's column selection (line 69) is left out. `SearchRows` returns None there, and `FindMatchesSorted` models the call of line 70.
- Results.FindMatchesSorted: requires the searched arrays to be distinct objects and distinct from the term array. The source would also run on aliased arrays and sort them twice.
- Custom: Papa.parse is external. Its outcome is the input. The in-place `unshift` on the parser's row is modelled on values, as the new header.
- Params: `window.alert`, and `preventSideEffects` and the other navigation options, are left out. Numbers are integers, so `set` with a fractional number is not modelled.

## Findings

| source | as written | input that shows it | evidently intended | confidence | as-written member | corrected member |
|---|---|---|---|---|---|---|
| pipeline/main.py:723-726 | A dataset whose matrix group is present but partial gets the current row counter as its index entry. Line 726 then skips it without writing a row. | Two genes in one dataset with two matrices: the first found only in matrix 0, the second in both. The index becomes `[0, 0]` with one row, and the reverse index has two entries. | -1 for every gene that gets no row, as the comment of line 725 says. | not executed; high | Orchestrator.PartialGroupAliases, with Orchestrator.ReverseMatchesRowsIff for every input | Orchestrator.PartialGroupDropped, with Orchestrator.DatasetStep and Orchestrator.DatasetRunRecords |
| frontend/src/lib/stores/param.js:6-24 | `v && v == "true"` is false for every stored value other than "true", and `|| defaultVal` then replaces it. A boolean parameter with default true always reads true. | `createBoolParam(name)`, `set(false)`: the query holds "false", which reads back as true. | "false" reads as false. | not executed; high | Params.BoolDefaultTrueStuck | Params.DecodeBoolExplicit, with Params.BoolRoundTrip |
| frontend/src/lib/stores/results.js:4-12 | The term list and arrays are sorted by code units. The cursor search then compares case-insensitively, so a cursor can stop early on an element that compares above the term. | Arrays `[["a", "B"]]`, terms `["a"]`: the array sorts to `["B", "a"]` and the search stops on "B", so "a" is not found. | Sort with the same comparison the search uses, so every term present in an array is found. | not executed; medium: the real comparison is the host's collator | Results.CodeUnitSortMisses | Results.SearchConsistent, with Results.SearchConsistentComplete and Results.ConsistentSortFinds |

The gene loop (`Orchestrator.GeneLoop`) steps every dataset with line 723 as written, so it stands for what the program computes. `Orchestrator.DatasetRunAsWrittenRecords` states what that still keeps. The corrected step `Orchestrator.DatasetStep` and its run are stated beside it, and `Orchestrator.AsWrittenShadow` proves that the two differ in the sparse index only.
