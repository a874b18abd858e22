# Verified model of the LoPT tokenizer and of parts of vLLM

The main part models the LoPT parallel tokenizer. A long text is cut into overlapping windows, every
window is tokenised on its own, the C++ function `match` looks for a seam in every overlap, and `merge`
splices the shards at the seams. The serial tokenizer is a parameter `T` with stated laws
(`Tokenizers.Lawful`): its tokens cover the text, a token's id depends only on the token's text, and
where a token ends depends only on the next `w` characters. The laws are satisfiable
(`Tokenizers.Rule.RuleIsLawful`).

The other modules model one algorithm each from vLLM: the build time report, the signatures of graph
partitions, the flat logprobs container, scalar type ids and limits, the chunked GPU allocator, the rate
limiter, the bad words filter, lockstep chunking across ranks, merging of streamed outputs, and the range
notation of the model printout.

| file | models |
|---|---|
| Common, Bits | options, bounds; shifts, masks, packed fields |
| MatchMerge, Chunking | the C++ functions `match` and `merge`; the generator `chunks` |
| Tokenizers, Lopt, ParallelTokenizer | the serial tokenizer's laws, one run of the pipeline, `check_overlap` |
| LookaheadThreshold, Misalignment | how far a tokenizer may look ahead for the pipeline to be lossless; a run that loses |
| OverlapBound | how far the overlap may exceed the chunk before text is repeated |
| NinjaReport, PartitionSignatures, Logprobs, ScalarTypes | `SummarizeEntries`, `get_graph_partition_signature_patched`, `FlatLogprobs`, `ScalarType` |
| CumemAllocator, RateLimiter, BadWords | `create_and_map` and `unmap_and_release`, `RateLimiter`, `NoBadWordsLogitsProcessor` |
| DpLockstep, RequestOutputs, IndexRanges | `DPMetadata`, `RequestOutput.add`, `_format_index_ranges` |

Code that updates variables or fields is modelled by methods and classes that do the same; each is
proved against a function or predicate, and the properties are lemmas about that function or predicate.

## Where the code and its documentation part

- The repository's README promises ids that equal the serial result without a condition. For an overlap
  of at most a chunk and two characters the code keeps this promise for every successful run exactly when
  the tokenizer looks ahead no more than 3 characters beyond the mismatch threshold, that is 5 for the
  threshold 2 that it uses; one character more is harmless where the overlap is exactly 3 above the
  threshold, and an overlap of less than 2 above it lets no match succeed (`LookaheadThreshold.Exact`).
  With a longer lookahead or overlap a run is still lossless if each matched run of tokens begins early
  enough and the cuts are in order (`Lopt.Lossless`).
- Whatever the tokenizer's lookahead, the text is conserved in every successful run exactly when the
  overlap exceeds the chunk by no more than four characters (`OverlapBound.PipelineConservedIff`). With a
  longer overlap, which `check_overlap` accepts, some text can occur twice in the result.
- `check_overlap` documents `"match_failed"` and returns `"match failed"`; and a text that yields one
  window ends in a `KeyError`, because a timing is read before it is recorded.
- The rate limit is documented as requests per second. A window of `w` seconds can hold
  `rate * (ceil(w) + 1)` grants and no more; a window of any length, however short, can hold twice the
  rate.
- The double behind `ScalarType.max()`, before the bias is subtracted, is the largest finite value except
  for IEEE 754 types with one exponent bit. The asserts accept exactly the types whose maximum is a double,
  apart from those with 53 mantissa bits and extended NaNs, whose largest mantissa ends in a zero
  (`ScalarTypes.NumberIffFits`). An unsigned floating-point type has a maximum but no minimum.
- `create_and_map` treats an error code that an earlier call left over as a failure of its own first
  creation, and then leaves that handle behind; a failed `cuMemSetAccess` leaves everything behind.
- `_format_index_ranges` gives the fewest ranges exactly when its input has no duplicates.
- `FlatLogprobs` acts like the list it stands for, except that an empty slice raises `IndexError`, and a
  position appended as `None` is read back as an empty dictionary.
- Merging streamed outputs is independent of their grouping if and only if no index of the stream begins
  without logprobs and gets some later (`RequestOutputs.GroupsIff`).

## Model

| member | source | states |
|---|---|---|
| Lopt.Lossless | benchmarks/run_lopt.py:127-164 | for a lawful tokenizer with lookahead `w` at most a chunk and three characters, any overlap, and windows in which every token before the matched run sees `w` characters (or the end of the text): the spliced tokens are the serial tokens of the whole text, for any number of windows, if and only if no shard is cut further left on its right side than on its left side |
| Lopt.LosslessByThreshold | benchmarks/run_lopt.py:105-164 | for lookahead up to the threshold plus 3 and an overlap of at most a chunk and two characters, every run with successful matches is lossless |
| LookaheadThreshold.Exact | README.md:27 | for every chunk size, every overlap of at most a chunk and two characters, and every threshold: all successful runs of all lawful tokenizers with lookahead `w` are lossless if and only if `w <= thres + 3`, or `w <= thres + 4` where the overlap is `thres + 3`, or the overlap is below `thres + 2` |
| LookaheadThreshold.Necessary | README.md:27 | beyond that bound, for every chunk size, threshold, and overlap from `thres + 2` to a chunk and two characters, some lawful tokenizer and some text have a successful run with other ids than the serial ones |
| LookaheadThreshold.TightRunIsSafe | benchmarks/csrc/match_merge.cpp:27-31 | in an overlap of `thres + 3` one more character is harmless, because the run chosen is the longest |
| Misalignment.Scene.Loses | benchmarks/run_lopt.py:127-164 | the run itself: the left window ends one character before the tokenizer can see a token of two characters, the right window stays out of step with the left one until that token is over, and the ids differ |
| Misalignment.Scene.RunIsChosen | benchmarks/csrc/match_merge.cpp:12-44 | in that run the characters after the token are the rightmost longest aligned run, since the windows share no token start before |
| Lopt.TextConserved | benchmarks/run_lopt.py:150-164 | with an overlap that exceeds the chunk by no more than the threshold and two, whatever the tokenizer does near the edges of its windows, the spliced tokens cover the text with no gap and no overlap, and joining their texts gives the text back |
| Lopt.TextConservedIff | benchmarks/run_lopt.py:150-164 | for any overlap, the spliced tokens cover the text, and joining their texts gives the text back, if and only if no shard is cut further left on its right side than on its left side |
| OverlapBound.ConservedIff | benchmarks/run_lopt.py:115-164 | every successful run conserves the text, for all tokenizers that cover their texts, if and only if the overlap exceeds the chunk by no more than the threshold and two |
| OverlapBound.PipelineConservedIff | benchmarks/run_lopt.py:105-113 | with the threshold of the pipeline: if and only if by no more than four characters |
| OverlapBound.Scene.Repeats | benchmarks/run_lopt.py:143-164 | beyond that, a run of three windows whose middle shard is cut out of order |
| Lopt.Follow | benchmarks/run_lopt.py:101-102 | from a token start that a window and the whole text share, the window's tokens are those of the whole text for as long as the tokenizer sees enough of the window |
| Lopt.Attempt.CutsApart | benchmarks/run_lopt.py:143-154 | with an overlap that exceeds the chunk by no more than the threshold and two, no shard's right cut lies to the left of its left cut, and with one less every shard contributes a token |
| Lopt.Attempt.SeamFacts | benchmarks/csrc/match_merge.cpp:39-43 | both shards of a pair are cut at the same character of the text, within the overlap |
| Lopt.RunFitsOverlap | benchmarks/csrc/match_merge.cpp:26-41 | a matched run lies within the overlap, so it has at most as many tokens as the overlap has characters |
| Lopt.Attempt.SpliceIsTaken | benchmarks/csrc/match_merge.cpp:46-68 | the slice table is well formed, and splicing the id columns by it gives the ids of the tokens between the cuts |
| ParallelTokenizer.CheckOverlap | benchmarks/run_lopt.py:115-173 | fails to match exactly if some pair of neighbours has no aligned run of more than 3 tokens; otherwise splices at the rightmost longest runs; the tokens cover the text exactly if the cuts are in order, which an overlap of at most a chunk and four characters ensures; with at most a chunk and two characters the ids are the serial ids for lookahead up to 5; one window is a `KeyError` |
| ParallelTokenizer.MatchAll | benchmarks/run_lopt.py:148-154 | the seams of all pairs, or a failure exactly if some pair has none |
| ParallelTokenizer.MatchPair | benchmarks/run_lopt.py:105-113 | threshold 2; a seam is the rightmost longest aligned run of the two shards, and there is none exactly if no run exceeds 3 tokens |
| ParallelTokenizer.TableFitsAlways | benchmarks/run_lopt.py:154 | for any tokenizer and overlap, no slice reads outside its shard |
| MatchMerge.Match | benchmarks/csrc/match_merge.cpp:12-44 | for increasing starts the two-pointer scan finds the rightmost longest aligned run among all pairs, fails exactly if no run exceeds `thres + 1` tokens, and otherwise returns the suffix counts of the run's second-to-last pair; for other starts a reported seam is still an aligned run |
| MatchMerge.RunLengthIsMaximal | benchmarks/csrc/match_merge.cpp:18-37 | the brute-force length that the scan is compared with: so many pairs are aligned, and the next is not |
| MatchMerge.RightmostLongestIsUnique | benchmarks/csrc/match_merge.cpp:27-31 | the scan's answer is determined by its inputs |
| MatchMerge.Merge | benchmarks/csrc/match_merge.cpp:46-68 | an error exactly if the table does not have two entries per shard; otherwise the slices in order |
| MatchMerge.SplicedAt | benchmarks/csrc/match_merge.cpp:52-62 | each token of each slice sits right after the slices before it, and nothing is added |
| MatchMerge.SplicedSize | benchmarks/csrc/match_merge.cpp:52-62 | the merged length is the sum of the slice lengths |
| MatchMerge.SplicedMap | benchmarks/run_lopt.py:160-164 | columns merged by one table stay aligned: position by position they come from the same tokens |
| Chunking.ChunkText | benchmarks/utils.py:27-32 | terminates, and window `k` is the text from `k * chunk_size` on, `chunk_size + overlap` long or to the end of the text |
| Chunking.NeighboursShare | benchmarks/utils.py:28-31 | neighbouring windows share at least min(overlap, 101) characters: whatever of a window lies beyond its chunk starts the next window, for any overlap |
| Chunking.StrippedIsText | benchmarks/utils.py:27-32 | round trip: dropping the overlaps rebuilds the text |
| Chunking.ChunkBatch | benchmarks/utils.py:33-36 | terminates; every non-empty lane shows exactly the windows of the string branch and then empty texts, for as long as some lane has a window left |
| Tokenizers.Rule.RuleIsLawful | benchmarks/run_lopt.py:101-102 | any rule that decides on the next token from `w` characters is a lawful tokenizer |
| NinjaReport.SummarizeEntries | vllm/tools/report_build_time_ninja.py:198-256 | every step gets, of each stretch between events in which it runs, the stretch divided by the number of steps running in it, between 0 and its duration; the weighted total is the measure of the union of the steps; with the idle time it makes up the length of the build |
| NinjaReport.Sweep | vllm/tools/report_build_time_ninja.py:225-256 | the event loop: the same shares and total, every stop finds its step running, and none is left at the end |
| NinjaReport.AtStop | vllm/tools/report_build_time_ninja.py:248-254 | a stop finds its step running, and what has accumulated since its start is its share |
| NinjaReport.CollectEvents | vllm/tools/report_build_time_ninja.py:207-220 | one start and one stop event per step, and the span of the build |
| NinjaReport.SharesAreBusyTime | vllm/tools/report_build_time_ninja.py:238-254 | conservation: the shares of all steps add up to the time in which some step runs |
| NinjaReport.ShareIsBounded | vllm/tools/report_build_time_ninja.py:74-89 | a step's share lies between 0 and its duration |
| NinjaReport.BusyPlusIdle | vllm/tools/report_build_time_ninja.py:220-221 | the time in which some step runs and the time in which none does make up the length, and neither is negative |
| NinjaReport.BusyIgnoresPoints | vllm/tools/report_build_time_ninja.py:238-244 | one more point on the time line leaves the measure unchanged |
| NinjaReport.BusyIsMeasure | vllm/tools/report_build_time_ninja.py:238-244 | any two choices of points over the same range give the same measure of the union of the steps |
| NinjaReport.RunningNow | vllm/tools/report_build_time_ninja.py:241-254 | between two events the steps started and not stopped are those that run throughout the stretch |
| NinjaReport.SortSorts | vllm/tools/report_build_time_ninja.py:223-228 | the events are sorted by time with starts before stops, and none is lost |
| PartitionSignatures.CompletesIffSupplied | vllm/vllm/env_override.py:116-240 | a run executes the nodes one by one: a node needs what it reads and writes, made before it or handed in, and what a node frees is gone. Where the nodes come in turn and no partition frees a graph output or a name used later, the partitions of a graph without renames, handed only what their signatures say, run to the end, hand back what they return, treat their inputs as the deallocation flags say, and leave all graph outputs, if and only if the names unmet before the first partition that have a node are supplied |
| PartitionSignatures.GetSignatures | vllm/vllm/env_override.py:102-240 | the backward loop builds the signatures of the partitions in forward order, each from what is unmet after it, or fails at a returned name without a node |
| PartitionSignatures.OnePartition | vllm/vllm/env_override.py:142-238 | one pass of the loop: inputs, kept inputs, returned outputs, freed inputs, constants, and the names unmet before the partition |
| PartitionSignatures.InputsIff | vllm/vllm/env_override.py:153-195 | name by name: an input is a name with a node that is the real buffer behind what some node reads or writes, none makes and has a layout, or that some node frees and none makes; it is deallocated exactly if some node frees it; the constants are the constants among the names accessed; and the flag for CUDA graphs |
| PartitionSignatures.OutputsIff | vllm/vllm/env_override.py:197-217 | name by name: the outputs are the real buffers, with a layout, behind what a node makes and is unmet or behind an input that no node frees; a lookup fails exactly if one of them has no node |
| PartitionSignatures.UnmetIff | vllm/vllm/env_override.py:234-238 | name by name: unmet before a partition is what it needs from outside, and what was unmet after it and is not handed back |
| PartitionSignatures.SignatureAt | vllm/vllm/env_override.py:138-140 | signature `k` is that of partition `k` with its own flag, from what the later partitions leave unmet |
| PartitionSignatures.NodesRun | vllm/vllm/env_override.py:153-181 | started with the inputs and constants of the signature, every node in its turn finds what it reads, writes and frees |
| PartitionSignatures.RunOneSucceeds | vllm/vllm/env_override.py:201-207 | handed the inputs and constants of its signature, a partition runs node by node, deallocates exactly what is flagged, and leaves what is unmet after it, if it is given what was unmet before it |
| PartitionSignatures.RunOneNeeds | vllm/vllm/env_override.py:234-238 | and it can do so only if it is given all of that |
| PartitionSignatures.LookupsSucceed | vllm/vllm/env_override.py:213-217 | in a graph without renames whose outputs have nodes and layouts, no lookup fails if every name that a node produces has a node or no layout |
| PartitionSignatures.FailureSpreads | vllm/vllm/env_override.py:213-217 | a failed lookup in a later partition fails the whole pass |
| Logprobs.RunRefines | vllm/vllm/logprobs.py:63-152 | any sequence of append, append_fast, extend and slices with positive step decodes to what the same operations make of a plain list, with an empty dictionary for each `None` of the list, and fails exactly where one of the list's slices is empty |
| Logprobs.SameUnlessMissing | vllm/vllm/logprobs.py:63-72 | the container reads back as the very list if and only if the list holds no `None` |
| Logprobs.OpRefines | vllm/vllm/logprobs.py:63-135 | the same for one operation |
| Logprobs.Columns.SliceDecodes | vllm/vllm/logprobs.py:121-133 | a slice decodes to the slice of the list, its ranges are again ordered, disjoint and in bounds, and it fails exactly if it is empty |
| Logprobs.Columns.AppendDecodes | vllm/vllm/logprobs.py:63-72 | appending adds one position and leaves the others alone, and keeps the ranges ordered, disjoint and in bounds |
| Logprobs.Columns.ExtendDecodes | vllm/vllm/logprobs.py:95-98 | extending adds the positions in order |
| Logprobs.FlatLogprobs.Append | vllm/vllm/logprobs.py:63-72 | the six lists after the loop, and the decoded position |
| Logprobs.FlatLogprobs.AppendFast | vllm/vllm/logprobs.py:74-93 | from four iterables: the columns grow by their first `n` elements, `n` being the length of the shortest, and the position decodes to the dictionary of the zipped items |
| Logprobs.FlatLogprobs.Extend | vllm/vllm/logprobs.py:95-98 | the same for several positions |
| Logprobs.FlatLogprobs.GetPosition | vllm/vllm/logprobs.py:110-120 | the list's element at the index, negative indices from the end, and an error exactly if it is out of range; key by key: a token id has an entry exactly if it occurs in the range of the position, with log probability, rank and decoded token of its last occurrence there |
| Logprobs.FlatLogprobs.ReadRange | vllm/vllm/logprobs.py:111-120 | the comprehension over a range of the columns gives each token id the entry of its last occurrence |
| Logprobs.DictionaryOfItems | vllm/vllm/logprobs.py:111-120 | pairs with distinct keys make up the dictionary with exactly these items, key by key and value by value |
| Logprobs.AsMapLast | vllm/vllm/logprobs.py:111-120 | of pairs with the same key the last one counts |
| Logprobs.Columns.AppendedReadsBack | vllm/vllm/logprobs.py:63-72 | round trip: a dictionary that is appended is read back item by item, with rank and decoded token |
| Logprobs.FlatLogprobs.GetSlice | vllm/vllm/logprobs.py:121-133 | a new container that holds the slice of the columns, and an error exactly if the slice is empty |
| Logprobs.SliceHolds | vllm/vllm/logprobs.py:121-133 | the element `k` of a slice is the one at position `lo + k * step`, as long as that is below `hi` |
| Logprobs.BoundMeans | vllm/vllm/logprobs.py:121-133 | which positions the bounds select: negative ones count from the end, and missing ones leave that side open |
| Logprobs.LastPositions | vllm/vllm/logprobs.py:121-133 | `flat[-k:]` holds the last `k` positions, or all if there are fewer |
| Logprobs.AppendForNextPosition | vllm/vllm/logprobs.py:175-206 | both branches agree: a flat container that stands for a list goes on to stand for what the list branch makes of that list |
| Logprobs.RankOfItem | vllm/vllm/logprobs.py:185-204 | the first item carries the sampled token's rank and item `i` the rank `i` |
| Logprobs.ItemsAppended | vllm/vllm/logprobs.py:184-204 | one item more than asked for, or all there are, and all if -1 is asked for |
| ScalarTypes.DecodeId | vllm/vllm/scalar_type.py:136-164 | unpacking the id of a type whose fields are in range returns every field, the bias as two's complement |
| ScalarTypes.IdsCollide | vllm/vllm/scalar_type.py:143-158 | ids fit in 58 bits, and two types, in range or not, share one exactly if they agree in the low bits of every field |
| ScalarTypes.ComputeId | vllm/vllm/scalar_type.py:143-160 | shifting, masking and or-ing puts the fields side by side |
| ScalarTypes.IdLayout | vllm/vllm/scalar_type.py:153-158 | where the fields lie, in numbers: exponent in bits 0 to 7, mantissa 8 to 15, sign 16, bias from 17 in two's complement, finite values only 49, NaN convention from 50 |
| ScalarTypes.FromIdOfId | vllm/vllm/scalar_type.py:308-312 | after any sequence of registrations the id of a registered type finds that type, and the id of a type that is not registered finds none |
| ScalarTypes.Registry.Id | vllm/vllm/scalar_type.py:160-164 | adds the type to the registrations, under the id of its fields |
| ScalarTypes.Registry.FromId | vllm/vllm/scalar_type.py:308-312 | after any registrations: an error exactly if no registered type has the id, otherwise a registered type with that id; if all are in range, a type is found under its id exactly if it was registered |
| ScalarTypes.RegisteredFinds | vllm/vllm/scalar_type.py:162-164 | the id map holds exactly the ids of the registered types, in range or not, each with a type that has it |
| ScalarTypes.DoubleLimits | vllm/vllm/scalar_type.py:71-125 | the bits for the maximum decode, as a finite double, to the largest finite value of the small format, and those with the sign bit to its negation, for each NaN convention |
| ScalarTypes.MaxIsLargest | vllm/vllm/scalar_type.py:76-97 | the value is the largest finite one if and only if the type has two exponent bits or more or is not an IEEE 754 type |
| ScalarTypes.MaxBitsDecode | vllm/vllm/scalar_type.py:76-101 | the bits decode to the intended value in any wider format, with either sign |
| ScalarTypes.LargestCode | vllm/vllm/scalar_type.py:76-85 | no finite code of the format has a higher value than the one with the largest finite exponent and mantissa |
| ScalarTypes.FloatingPointMaxInt | vllm/vllm/scalar_type.py:71-101 | success exactly if the value is a finite double and the mantissa has at most 52 bits; then the bits are those of that value |
| ScalarTypes.NumberIffFits | vllm/vllm/scalar_type.py:72-88 | for any wider format: the asserts hold if and only if the value is a finite number of that format and the mantissa is no longer; a longer mantissa makes it no number, except one bit longer with the extended NaNs, where the asserts refuse a number |
| ScalarTypes.MaxLimit | vllm/vllm/scalar_type.py:107-114 | an integer type: the greatest value of any code less the bias, an error exactly if it does not fit in 64 bits; a floating-point type: the bits above, less the bias |
| ScalarTypes.MinLimit | vllm/vllm/scalar_type.py:116-134 | the least value in the same way; a floating-point type has to be signed |
| ScalarTypes.IntegerLimits | vllm/vllm/scalar_type.py:114-134 | no code of an integer type stands for more or less than its limits, in two's complement if it is signed, and some codes reach them |
| Bits.Pack | vllm/vllm/scalar_type.py:143-151 | or-ing masked and shifted members in a loop gives the packed fields |
| Bits.UnpackedPacked | vllm/vllm/scalar_type.py:146-151 | reading packed fields back returns the low bits of every member |
| CumemAllocator.ChunkSizes | vllm/csrc/cumem_allocator.cpp:300-350 | the chunks are positive multiples of the granularity that add up to the aligned size, and all but the last have the configured size |
| CumemAllocator.ChunkSizeSetting | vllm/csrc/cumem_allocator.cpp:24-42 | a setting of `m` megabytes that is positive and fits gives `m * 1048576` bytes, anything else 256 MB |
| CumemAllocator.Allocator.CreateAll | vllm/csrc/cumem_allocator.cpp:131-140 | all chunks created with their sizes, or none left if the clean-up works; from no error code the code is that of the first creation that fails; with a left-over error code the first creation counts as failed |
| CumemAllocator.Allocator.MapAll | vllm/csrc/cumem_allocator.cpp:141-160 | all chunks mapped, or no mapping and no handle left if the clean-up works; in a reserved range the code is that of the first mapping with a fault |
| CumemAllocator.Allocator.CreateAndMap | vllm/csrc/cumem_allocator.cpp:95-174 | without an error every chunk has a handle of its size, all are mapped contiguously, and exactly the range has gained read and write access; from no error code, a failure to create or map at any chunk leaves the driver as it was, and a failure to set access leaves everything but gives no access; in a reserved range the code and the stage are those of the first call with a fault, setting the access included |
| CumemAllocator.Allocator.UnmapAndRelease | vllm/csrc/cumem_allocator.cpp:176-220 | every chunk is unmapped and every handle released, each call returning its own fault and nothing else, whatever the others return; the first fault is the error code; no chunk that has been unmapped has access; without faults the driver is as it was before `create_and_map`, the access included |
| CumemAllocator.Allocator.MapAndUndo | vllm/csrc/cumem_allocator.cpp:95-220 | round trip: mapping and then unmapping changes nothing in the driver: handles, mappings and access |
| CumemAllocator.AllBacked | vllm/csrc/cumem_allocator.cpp:165-168 | all chunks together back the range, which is what setting the access asks for |
| CumemAllocator.FirstFaultIff | vllm/csrc/cumem_allocator.cpp:63-74 | the first fault is 0 exactly if no call has one, and otherwise that of a call before which none has |
| CumemAllocator.CoveredOnce | vllm/csrc/cumem_allocator.cpp:141-160 | the mapped chunks tile the range: every address lies in exactly one of them |
| CumemAllocator.MappedWithoutFirst | vllm/csrc/cumem_allocator.cpp:200-207 | unmapping the chunks in order takes away one mapping at a time and none other |
| RateLimiter.WindowBound | vllm/benchmarks/disagg_benchmarks/rate_limiter.py:17-36 | any window of length `w > 0` holds at most `rate * (ceil(w) + 1)` grants (the rate rounded up), for every order in which callers get the lock at non-decreasing times |
| RateLimiter.WindowBoundReached | vllm/benchmarks/disagg_benchmarks/rate_limiter.py:12-27 | the bound is exact: for every positive rate, integer or not, and every window length some run reaches it |
| RateLimiter.TokensInRange | vllm/benchmarks/disagg_benchmarks/rate_limiter.py:24-32 | the tokens stay at most at the rate and above -1, and at 0 or more if rate and tokens are integers |
| RateLimiter.RefillsApart | vllm/benchmarks/disagg_benchmarks/rate_limiter.py:22-27 | refills are more than a second apart |
| RateLimiter.Limiter.TryAcquire | vllm/benchmarks/disagg_benchmarks/rate_limiter.py:20-35 | one pass through the critical section: all tokens are back if more than a second has passed, and there is a grant exactly if some token is left; a wait is negative only if the rate is not positive |
| BadWords.PickedIffClean | vllm/vllm/logits_process.py:56-104 | where the model itself rules nothing out, every token was picked with a finite logit if and only if no bad word ends after the start |
| BadWords.NoBadWords | vllm/vllm/logits_process.py:56-104 | a generation from an empty output that never picks a ruled-out token never contains a bad word |
| BadWords.DifferencesStay | vllm/vllm/logits_process.py:85 | the differences between the tokens that are left stay as they are |
| BadWords.GreedyRun | vllm/vllm/logits_process.py:56-87 | a run picks the highest processed logit at every step if and only if it picks the token that the model prefers among those that are allowed |
| BadWords.BlockedIsOccurrence | vllm/vllm/logits_process.py:71-83 | a token is ruled out exactly if with it some bad word ends there |
| BadWords.NoBadWordsLogitsProcessor.Call | vllm/vllm/logits_process.py:56-87 | a logit is minus infinity exactly if it was so before or its token would complete an occurrence of a bad word, and otherwise keeps its value; an error exactly for ids outside the vocabulary and for an empty word |
| BadWords.NoBadWordsLogitsProcessor.LastTokenBias | vllm/vllm/logits_process.py:64-83 | the bias of the words with two tokens or more |
| BadWords.NoBadWordsLogitsProcessor.InitWordBias | vllm/vllm/logits_process.py:89-104 | the bias of the words with one token, set once |
| BadWords.NoBadWordsLogitsProcessor.CheckTokenIdsBounds | vllm/vllm/logits_process.py:106-121 | an error exactly if some id lies outside the vocabulary |
| DpLockstep.Lockstep | vllm/vllm/forward_context.py:72-87 | in every round each slot works on 1 to `max_num_tokens` tokens; over as many rounds as the largest shard takes, it works off its own tokens and one dummy for each round that finds it done |
| DpLockstep.DPMetadata.WorkOff | vllm/vllm/forward_context.py:118-155 | rounds in contexts of their own, as many as the largest shard takes, add up to every slot's tokens and its dummies, and leave no sizes behind |
| DpLockstep.SlotsCoverRank | vllm/vllm/forward_context.py:61-69 | the slots of a rank hold between `n` and `n + sp - 1` tokens together |
| DpLockstep.SpSlot | vllm/vllm/forward_context.py:61-69 | slot `r * sp + j` holds the count of rank `r` divided by `sp`, rounded up |
| DpLockstep.CuTokensAcrossSp | vllm/vllm/forward_context.py:179-184 | the prefix sums over the same slots |
| DpLockstep.ChunkedLocalNumTokens | vllm/vllm/forward_context.py:72-87 | the sizes of one round, for all slots |
| RequestOutputs.FoldAddsUp | vllm/vllm/outputs.py:148-176 | aggregating any stream for which the assertion holds gives each index what was there before followed by its texts, token ids and logprobs in order |
| RequestOutputs.CompletionsAddUp | vllm/vllm/outputs.py:158-166 | the same, of the fields of each completion in the result |
| RequestOutputs.FoldKeepsOrder | vllm/vllm/outputs.py:154-176 | for every stream, aggregated or not, indices stay unique and in the order of first appearance |
| RequestOutputs.FoldReplaces | vllm/vllm/outputs.py:171-176 | for every stream that is not aggregated: a completion is in the result if and only if it is, whole, the last piece of its index, or was there before and its index has no piece |
| RequestOutputs.FoldKeepsLora | vllm/vllm/outputs.py:148-176 | aggregating leaves each index the LoRA request that it began with |
| RequestOutputs.FoldClashesIff | vllm/vllm/outputs.py:163-165 | the assertion fails if and only if the first completion or piece of some index has no logprobs and a later piece of that index brings some |
| RequestOutputs.FoldIsCurrent | vllm/vllm/outputs.py:166-173 | each index ends up with the cumulative logprob and the finish and stop reasons of its last piece, and keeps its own if there is none |
| RequestOutputs.GroupsIff | vllm/vllm/outputs.py:148-176 | for one group: a stream that merges one by one can be merged among itself first, with the same result, if and only if no index of the stream begins without logprobs and gets some later |
| RequestOutputs.AnyGrouping | vllm/vllm/outputs.py:148-176 | however a stream is divided into groups that are merged first: this succeeds exactly if the stream merges one by one and no group has an index that begins without logprobs and gets some later, and then the result is the same |
| RequestOutputs.GroupActsAsPieces | vllm/vllm/outputs.py:148-176 | a group that can be merged clashes exactly where its pieces do, and otherwise gives the same result |
| RequestOutputs.MixedPiecesDoNotGroup | vllm/vllm/outputs.py:163-165 | there are streams that merge one by one and not among themselves |
| RequestOutputs.RequestOutput.Add | vllm/vllm/outputs.py:148-176 | the whole new state is the fold of the pieces, in either mode; it fails exactly if logprobs arrive for a completion without any |
| RequestOutputs.RequestOutput.AddOne | vllm/vllm/outputs.py:155-176 | one piece is merged into, or replaces, the first completion with its index, or is appended |
| IndexRanges.FormatIndexRanges | vllm/vllm/model_inspection.py:44-58 | expanding the ranges gives back the sorted input, duplicates included; fails exactly on the empty list; no fewer ranges would do if and only if the input has no duplicates |
| IndexRanges.MinimalIffNoDuplicates | vllm/vllm/model_inspection.py:50-55 | ranges that follow one another as the loop leaves them are the fewest that cover their numbers if and only if no number occurs twice |
| IndexRanges.GappedIsMinimal | vllm/vllm/model_inspection.py:50-55 | no list of ranges over the same numbers is shorter than one with gaps between its ranges |
| IndexRanges.SortSorts | vllm/vllm/model_inspection.py:46 | the sorted input has the same numbers equally often |

## Left out

- Process pools, the Hugging Face tokenizer itself, special tokens, conversion to numpy and torch, timers and metrics.
- Tokens that share a start offset or are empty; the laws make starts strictly increasing. `MatchMerge.Match` has a weaker promise for such input.
- `query_llm` and its retry loop: on a failed match it unpacks a string into two names, and compares with a string that is never returned.
- vLLM's own wrapper around LoPT is not part of this model.
- Fixed widths of integers: `int` and `int64_t` in the C++ functions, `size_t` in the allocator, and address overflow. Rounding in the build time report, in the rate limiter and in logits; `NaN` and infinite logits.
- LookaheadThreshold.Exact: for overlaps beyond a chunk and two characters the bound is not given; `Lopt.Lossless` covers them run by run.
- OverlapBound.ConservedIff: the half that repeats text is about thresholds that are smaller than a last window, up to the chunk size plus 97.
- ScalarTypes.MaxIsLargest: outside IEEE 754 every code that is not a NaN counts as finite, whatever the flag for finite values says; the program does not say which codes would be infinite.
- PartitionSignatures.CompletesIffSupplied: is about graphs without mutation renames whose outputs have a node and a layout, about nodes in an order that can run and whose names are known, and about last uses that are right: no partition frees a graph output, a name without layout, or a name that a later partition uses; the renames and layout checks are stated name by name in `InputsIff` and `OutputsIff`. Layouts are looked up in a set, not through chains of renamed buffers.
- The order of the names within a signature, symbol inputs, and the other patches in `env_override.py`.
- The build time report's grouping by extension, sum of elapsed times, warning and printing; entries that end before they start; negative times.
- Rounding when a bias is subtracted from a floating-point limit; the constructors give floating-point types no bias. `has_nans`, `is_ieee_754`, `__str__`, and types without mantissa bits; that fields are in range is assumed of the caller.
- ScalarTypes.Registry.Id: caching of the property on the instance is not modelled.
- Negative steps, deletion, insertion and assignment of `FlatLogprobs`.
- Address reservation, host memory for the handle table, device contexts, Python callbacks and the branch without ROCm. The driver is a set of handles with sizes, a map of mappings and a set of addresses with access; its calls may fail at any time, and a failed call changes nothing.
- `acquire` as a coroutine: the lock and the sleep are outside; a run is the sequence of times at which callers are in the critical section.
- `get_bad_words_logits_processors`, which tokenises the words. A vocabulary that changes its size between calls.
- The context managers of `DPMetadata` beyond setting and clearing the sizes; `make`, which looks at the tensors of other ranks.
- RequestOutputs.RequestOutput.Add: completions are values, so that Python shares the objects of both outputs afterwards is not modelled; nor is the half-merged state after a failed assertion.
- IndexRanges.FormatIndexRanges: gives the ranges and not their rendering as text.
