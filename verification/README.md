# Verified models of the evaluation and conversion tools

A Dafny 4.11 project about the hard logic in this repository's `scripts/` and `benchmark/`
directories: how transcripts are scored, how long evaluations survive crashes, how a
quantized graph gets its float convolutions back, and a few smaller machines. Run
`dafny verify dfyconfig.toml`.

| file | what it models |
|---|---|
| `Alignment.dfy` | word alignments, the edit-distance recurrence, the alignment every backtrace walks, the metric laws |
| `Scorers.dfy` | the distance and alignment programs, each in its own data layout |
| `Backtraces.dfy` | deletion runs and capitalization counts read off a backtrace |
| `Options.dfy` | a value that may be missing |
| `Framing.dfy` | append-only files of newline-terminated records |
| `Encoding.dfy` | a one-to-one record encoding without line breaks, so that the ledgers' assumptions can be met |
| `PoolLedger.dfy` | the resumable evaluation: bounded request pool, single writer, crash at any byte |
| `OrderedLedger.dfy` | the source-order ledger and the auditor that reads it while it grows |
| `GraphPruning.dfy` | the meaning of a graph, and pruning it backwards from its outputs |
| `GraphSurgery.dfy` | replacing convolution producers, then pruning |
| `GraphCaptures.dfy` | what that pruning does to nodes with bodies that read names from outside |
| `Converter.dfy` | recovering Linear weights by tracing bias additions |
| `Ctc.dfy` | CTC collapse, the frames a target needs, the training filter, frame scoring |
| `NumberWords.dfy` | number words to digits, and digit-group merging |
| `Stitching.dfy` | windows, seams and the words each window contributes |
| `OrderAudit.dfy` | the execution-order ledger and the interval checks |
| `Skeleton.dfy` | the length-preserving source skeleton and brace matching |
| `Sorting.dfy`, `Bootstrap.dfy` | sorting by a total order; the two bootstrap intervals |

Words, tokens and tensors are type parameters or plain values; numbers are `int`, `nat` or
`real`. Each program is a method proved against a specification function or predicate, and
the laws are lemmas about that specification. Crashes, scheduling, short writes and request
outcomes are nondeterministic.

Seven results say where the code falls short of what it seems to promise. Each gives a
concrete input, and for all inputs the exact condition under which the promise holds:

* `GraphPruning.DeadNodeKept` and `GraphPruning.KeptExactlyLive`: the pruning compares names
  without excepting the empty name of an omitted optional input or output, so a dead node
  with an omitted output survives when a live node omits an input. Outputs are unaffected.
* `GraphCaptures.BranchTensorDropped` and `GraphCaptures.MeaningIffCapturesKept`: the pruning
  follows node inputs only, so what just the body of a branch or loop reads is dropped. In a
  single-assignment graph the outputs keep their values if and only if every body that an
  output depends on still finds each name it found before.
* `GraphSurgery.DanglingConvolution` and `GraphSurgery.WellFormedIffResolvable`: the surgery
  does not check that the name a restored convolution reads as its first input exists in the
  quantized graph, nor that no other node reads a further output of a replaced producer. In a
  single-assignment graph, with convolutions of one output each, the replaced graph is well
  formed if and only if both hold of the original.
* `NumberWords.LeadingZeroSwallowed` and `NumberWords.NumbersStayApart`: a spoken zero
  directly before a larger number word is absorbed into that number. Numbers spoken one after
  the other keep one token each if and only if every number but the last ends in a group that
  is not zero and is followed by a plain word of at least its last word's scale; otherwise
  there are fewer tokens than numbers.
* `Stitching.WordLostAtSeam` and `Stitching.StitchedWords`: a word that one window hears just
  after a seam and the next just before it is dropped by both. A word survives if and only
  if some window hears it past its own seam, or at all when nothing had been kept before it,
  and not past the next seam. `Stitching.StitchedByTime`: once the first window has a word up
  to the second seam, that waiver applies to the first window only.
* `Ctc.DuplicateEntryDefeatsFilter` and `Ctc.FilterExactIffDistinct`: over a vocabulary with
  a repeated entry the training filter can exclude a text that would fit. It keeps exactly
  the texts that fit if and only if no entry is repeated.
* `OrderAudit.StampsMayOverlap` and `OrderAudit.StampsApart`: by the times stamped into an
  accepted order ledger, attempts may overlap. They do not overlap if and only if the stamps,
  sorted, pass the neighbour check that the audit makes on measured intervals only.

## Model

| member | source | states |
|---|---|---|
| Alignment.DistanceIsMinimum | scripts/longform_stitch.py:42-59 | the tabulated number is attained by some alignment and no alignment is cheaper, for every pair of word lists |
| Alignment.AlignmentCostsAtLeastDist | scripts/longform_stitch.py:354-366 | every alignment of two prefixes costs at least the table entry for them |
| Alignment.CanonicalAligns | scripts/longform_stitch.py:366-377 | the alignment every backtrace walks is valid for its prefixes and costs exactly the table entry |
| Alignment.AdjacentCells | benchmark/common.py:444-451 | neighbouring table entries differ by at most one |
| Alignment.EqualWordsShortcut | benchmark/common.py:447-448 | on equal words the diagonal entry alone equals the three-way minimum, so shortcut and full versions agree |
| Alignment.DistTriangle | scripts/longform_stitch.py:42-59 | distances of prefixes compose through any middle transcript |
| Alignment.DistanceIsMetric | scripts/longform_stitch.py:42-59 | edit distance is zero only on equal lists, symmetric, and satisfies the triangle inequality |
| Alignment.DisagreementBoundsErrorChange | scripts/longform_stitch.py:337-345 | the total disagreement of two runs bounds the change in total word errors, over any corpus |
| Alignment.CountsConserveWords | scripts/longform_stitch.py:42-43 | in any alignment deletions minus insertions is the length difference, and substitutions plus deletions fit in the reference |
| Scorers.WordEditDistance | benchmark/common.py:439-452 | two swapped rows with the equal-words shortcut compute the minimum edit count |
| Scorers.WordEditDistanceInPlace | scripts/wer_unicode.py:45-56 | one row overwritten in place computes the same number |
| Scorers.CellCounts | scripts/longform_stitch.py:48-57 | the forward tie-break picks at each cell the predecessor the backtrace walks to |
| Scorers.Edits | scripts/longform_stitch.py:42-59 | the triple is the substitutions, deletions and insertions of the alignment the backtraces recover, not just some optimal one |
| Scorers.EditsTriple | scripts/longform_stitch.py:42-59 | the triple sums to the distance, keeps deletions minus insertions equal to the length difference, and S plus D within the reference |
| Scorers.Align | scripts/longform_stitch.py:354-377 | the backtrace terminates and returns a valid alignment of minimum cost, with the counts of the edits triple |
| Backtraces.LongBlocksListed | scripts/model-quality.py:47-63 | the reported blocks are exactly the maximal runs of at least three deletions, left to right |
| Backtraces.DeletionRunBounds | scripts/model-quality.py:62-63 | three times the runs is at most the words in runs, which is at most the edits and at most the reference words |
| Backtraces.ScoreDeletionRuns | scripts/model-quality.py:31-63 | the byte trace and backward walk report distance, number and total length of those blocks; an empty reference is rejected |
| Backtraces.CountCasing | scripts/benchmark_stitch_case.py:54-89 | the walk that stops at a border counts every matched pair of the folded words' optimal alignment by its capitalization |
| Backtraces.CasingPartition | scripts/benchmark_stitch_case.py:75-81 | true positives, errors and pairs lower-case on both sides add up to the matched words |
| Backtraces.CasingReport | scripts/benchmark_stitch_case.py:71-89 | errors are false positives plus false negatives, the three counts fit in the matched words, and those are the reference words neither substituted nor deleted |
| Backtraces.FoldingContracts | scripts/benchmark_stitch_case.py:62-63 | folding words never adds edits |
| Framing.DurableOfTail | scripts/benchmark_multilingual_1000.py:113-119 | an unfinished last line adds nothing to what a reader trusts |
| Framing.DurableGrows | scripts/benchmark_multilingual_1000.py:113-119 | appending any bytes keeps what was durable |
| Framing.SplitAppend | scripts/benchmark_multilingual_1000.py:121-121 | lines of a committed file are unchanged by whatever is appended |
| Framing.SplitEndings | scripts/benchmark_multilingual_1000.py:121-121 | the data is its lines, none with a line feed or carriage return, with a line feed, a carriage return or the pair between them, the longest possible |
| Framing.AppendRecord | scripts/benchmark_multilingual_1000.py:227-233 | one whole record appends exactly one line |
| PoolLedger.ValidSetupExists | scripts/benchmark_multilingual_1000.py:227-227 | for every manifest with distinct ids and every scorer there is a row encoding without line breaks that reads back, as the other results assume |
| PoolLedger.RowIsTold | scripts/benchmark_multilingual_1000.py:181-203 | a finished request's row is failed exactly when the request came back with an error, holds exactly its message or its text, and carries the sample's identity and the scores of that text |
| PoolLedger.LoadsExactly | scripts/benchmark_multilingual_1000.py:121-136 | a ledger loads exactly when every line stands for a manifest sample, with its identity and the scores of its own text, failed lines without text, and no id repeats; then it holds the rows of its lines |
| PoolLedger.RecordLoads | scripts/benchmark_multilingual_1000.py:121-136 | a finished request's row, failed or not, is never refused by a later resume and adds exactly itself |
| PoolLedger.WriteKeepsInv | scripts/benchmark_multilingual_1000.py:227-233 | after any short write the recoverable rows are the old ones, plus this row exactly when its newline is on file |
| PoolLedger.StepKeepsInv | scripts/benchmark_multilingual_1000.py:179-243 | every protocol step keeps the invariant, never shrinks the durable bytes and adds at most one row, under a new id, telling what its request came back with |
| PoolLedger.SubmitKeepsPool | scripts/benchmark_multilingual_1000.py:212-221 | taking the next sample from the lazy iterator keeps committed, busy and pending ids a partition and fills one slot if it can |
| PoolLedger.AlwaysPartitioned | scripts/benchmark_multilingual_1000.py:212-240 | in every run, committed, in-flight, written and pending ids partition the manifest, at most the worker limit busy, fewer only when nothing is pending |
| PoolLedger.CommittedRowsSurvive | scripts/benchmark_multilingual_1000.py:108-136 | over any interleaving, crashes and resumes, a recoverable row stays recoverable and unchanged |
| PoolLedger.RunsJoin | scripts/benchmark_multilingual_1000.py:108-136 | a later process that finds the file an earlier one left continues its run, so the laws over runs hold across any number of processes |
| PoolLedger.RowsTellResponses | scripts/benchmark_multilingual_1000.py:108-136 | over any run a recoverable row was there at the start or tells what some request for its sample came back with |
| PoolLedger.ResumeAlwaysLoads | scripts/benchmark_multilingual_1000.py:113-136 | cutting the file at any byte past the last newline recovers the same rows, and a resume never refuses them |
| PoolLedger.FinishedRunIsComplete | scripts/benchmark_multilingual_1000.py:222-244 | when nothing is in flight there is one row per sample and the file holds exactly these |
| PoolLedger.Runner.ReadLedger | scripts/benchmark_multilingual_1000.py:108-136 | truncates to the last newline and loads or refuses the lines in order, for any file |
| PoolLedger.Runner.SubmitNext | scripts/benchmark_multilingual_1000.py:218-221 | advances the iterator past samples that have a row by now and submits at most one |
| PoolLedger.Runner.AppendRow | scripts/benchmark_multilingual_1000.py:227-235 | short writes add up to the record, or a failed write leaves the old file and a proper beginning of the record; every state on the way is a protocol state |
| PoolLedger.Runner.HandleFinished | scripts/benchmark_multilingual_1000.py:224-240 | one finished request commits one new id |
| PoolLedger.Runner.HandleAll | scripts/benchmark_multilingual_1000.py:223-240 | all requests one wait reports are handled, in any order: exactly their ids, all of them new, are committed |
| PoolLedger.Runner.Resume | scripts/benchmark_multilingual_1000.py:179-221 | a resume succeeds exactly on files that load, and starts a run of the protocol |
| PoolLedger.Runner.Ordered | scripts/benchmark_multilingual_1000.py:244-244 | the rows in manifest order |
| PoolLedger.Runner.Evaluate | scripts/benchmark_multilingual_1000.py:147-251 | the whole program is a run of the protocol from the file it found; if it completes, its report lists one row per sample in manifest order: unchanged if it was recovered, else failed exactly when the request came back with an error, with its message or its text |
| OrderedLedger.ValidSetupExists | scripts/benchmark_ready_asr.py:205-205 | for every non-empty manifest with distinct ids and every scorer there is a row encoding without line breaks that reads back |
| OrderedLedger.RowIsTold | scripts/benchmark_ready_asr.py:172-193 | a row is failed exactly when the recognition raised, holds exactly its message or its text, and carries the sample and the scores of that text |
| OrderedLedger.WriteKeepsInv | scripts/benchmark_ready_asr.py:204-208 | a write either leaves the newline missing or adds exactly the next row |
| OrderedLedger.StepKeepsInv | scripts/benchmark_ready_asr.py:126-213 | every step keeps a source-order prefix plus at most one unfinished line, and a published result freezes the file |
| OrderedLedger.SourceOrderAlways | scripts/benchmark_ready_asr.py:195-210 | at every moment of every run the file is such a prefix, and later moments only extend it |
| OrderedLedger.AcrossProcesses | scripts/benchmark_ready_asr.py:126-213 | the same at every state of every process when any number of them work on the ledger one after the other, each stopping or dying anywhere |
| OrderedLedger.ResumeIffWholeLines | scripts/benchmark_ready_asr.py:127-142 | a resume is refused exactly when an earlier process died inside a line |
| OrderedLedger.Writer.Resume | scripts/benchmark_ready_asr.py:126-142 | accepts exactly the ledgers whose lines match the manifest prefix, for any file |
| OrderedLedger.Writer.AppendRow | scripts/benchmark_ready_asr.py:205-208 | the row is appended whole, or the program stops and the file is the old one and a proper beginning of the row's line |
| OrderedLedger.Writer.RecognizeSome | scripts/benchmark_ready_asr.py:195-203 | recognitions finish in any order and any number ahead, the next one among them, each a step of the protocol |
| OrderedLedger.Writer.Evaluate | scripts/benchmark_ready_asr.py:126-213 | the program, with recognitions finishing in any order, is a trace of the protocol; a complete outcome means the result is published and the file is one a resume accepts in full: the rows it started from, then for each further sample the row that tells what its recognition came back with |
| OrderedLedger.ReadSnapshot | scripts/audit_ready_asr.py:53-59 | parses any bytes to the rows committed in them, tolerating a tail only in partial mode |
| OrderedLedger.VerifyPairing | scripts/audit_ready_asr.py:38-50 | accepts exactly the rows that pair with the manifest prefix, ids distinct on both sides |
| OrderedLedger.SnapshotIsPrefix | scripts/audit_ready_asr.py:53-59 | any byte prefix of a file commits a prefix of its rows |
| OrderedLedger.SnapshotPairs | scripts/audit_ready_asr.py:38-59 | whatever bytes of a live file are read, they parse to a prefix of the writer's rows, accepted exactly when the covered samples are original recordings |
| OrderedLedger.PublishedBeforeLedger | scripts/audit_ready_asr.py:194-208 | looking for the published result before reading the ledger always finds a complete ledger without a tail |
| GraphPruning.KeptNodesSuffice | scripts/build_small_quantization.py:76-83 | environments that agree on the needed names give equal wanted values, one running all nodes and one the kept ones |
| GraphPruning.PruningPreservesMeaning | scripts/build_small_quantization.py:76-89 | dropping nodes and initializers preserves every graph output, for every operator semantics and input, on every node list (single assignment or not) whose bodies read from outside only what is needed as an input, in particular without bodies |
| GraphPruning.PruningIsIdempotent | scripts/build_small_quantization.py:76-83 | pruning a pruned graph changes nothing |
| GraphPruning.KeptInputsDefined | scripts/build_small_quantization.py:76-89 | in a topologically sorted list every input of a kept node is still defined by what is kept |
| GraphPruning.NothingCaptured | scripts/build_small_quantization.py:76-83 | graphs without bodies meet the condition of the two laws above |
| GraphPruning.KeptIsFilter | scripts/build_small_quantization.py:77-83 | the kept list is the nodes, in order, for which the walk's decision is positive |
| GraphPruning.KeptReaches | scripts/build_small_quantization.py:78-81 | a node is kept exactly when names, the empty one included, connect it to an output |
| GraphPruning.KeptExactlyLive | scripts/build_small_quantization.py:78-81 | every live node is kept, and only live ones exactly when no dead node with an omitted output precedes a live node with an omitted input |
| GraphPruning.DeadNodeKept | scripts/build_small_quantization.py:78-81 | a two-node graph whose dead node survives |
| GraphSurgery.ExchangeProducers | scripts/build_small_quantization.py:63-75 | succeeds exactly when no node produces two replaced names and no name has two producers |
| GraphSurgery.Prune | scripts/build_small_quantization.py:76-83 | the backward loop computes the kept nodes and the needed names |
| GraphSurgery.MergeTensors | scripts/build_small_quantization.py:84-87 | copies every non-first, non-empty convolution input, failing exactly when the source graph lacks one |
| GraphSurgery.RestoreConvolutions | scripts/build_small_quantization.py:57-92 | the four ways to fail, decided on the inputs, and the pruned nodes and filtered initializers left in place on success |
| GraphSurgery.VerdictOnSource | scripts/build_small_quantization.py:61-87 | each failure, said on the source nodes of kind Conv: one without output, outputs that meet in one or two nodes, one that nothing produces, a weight the source lacks |
| GraphSurgery.NodesOnSource | scripts/build_small_quantization.py:61-73 | a node becomes the last source node of kind Conv whose first output it lists, and stays as it is if there is none |
| GraphSurgery.TensorsOnSource | scripts/build_small_quantization.py:84-87 | tensors change only under names that such a node reads past its first input, to the source's value |
| GraphSurgery.NeededIsReadByKept | scripts/build_small_quantization.py:76-89 | tensors are kept exactly under names of graph outputs and of inputs of kept nodes |
| GraphSurgery.ReplacedExactly | scripts/build_small_quantization.py:62-75 | each convolution's first output has exactly one original producer and a source convolution in its place |
| GraphSurgery.OthersUntouched | scripts/build_small_quantization.py:72-73 | a node that produces no replaced name stays as it was |
| GraphSurgery.RestoredMeaning | scripts/build_small_quantization.py:57-92 | the restored model computes at every output what the replaced graph computes before pruning, bodies reading from outside only what is needed as an input |
| GraphCaptures.CapturesKeptSuffice | scripts/build_small_quantization.py:76-89 | in a single-assignment graph pruning preserves every output when no body an output depends on loses a name, for values of any kind |
| GraphCaptures.EqualOutputsExpose | scripts/build_small_quantization.py:76-83 | with values that record how they were computed, equal outputs show that no such body lost a name |
| GraphCaptures.MeaningIffCapturesKept | scripts/build_small_quantization.py:76-89 | so pruning preserves the outputs of any single-assignment graph exactly when no body an output depends on loses a name it reads |
| GraphCaptures.RestoredMeaningIff | scripts/build_small_quantization.py:57-92 | the same for the graph after the exchange: restored and unpruned outputs are equal exactly when no such body loses a name |
| GraphCaptures.BranchTensorDropped | scripts/build_small_quantization.py:76-89 | a graph whose output changes because a tensor only a branch reads is dropped |
| GraphSurgery.WellFormedIffResolved | scripts/build_small_quantization.py:60-75 | the replaced list defines all it reads exactly when every convolution finds its first input and no other node reads a name lost with a replaced producer |
| GraphSurgery.LostIsExtraOutput | scripts/build_small_quantization.py:72-73 | only further outputs of replaced producers can be lost |
| GraphSurgery.LostExactly | scripts/build_small_quantization.py:72-73 | with single assignment and convolutions of one output, exactly the further outputs of replaced producers are lost, unless the graph is given them |
| GraphSurgery.WellFormedIffResolvable | scripts/build_small_quantization.py:60-75 | so the replaced list is well formed exactly when, in the original, each convolution's first input is defined in time and nothing reads a further output of a replaced producer |
| GraphSurgery.RestoredInputsDefined | scripts/build_small_quantization.py:57-92 | then every input of every kept node is a graph input, a kept tensor or an output of an earlier kept node |
| GraphSurgery.DanglingConvolution | scripts/build_small_quantization.py:57-92 | a graph that passes all checks though its restored convolution reads an undefined name |
| GraphSurgery.OriginalTensorsKept | scripts/build_small_quantization.py:84-89 | original tensors keep their values exactly when overriding source tensors agree with same-named ones |
| GraphSurgery.WeightsRestored | scripts/build_small_quantization.py:84-89 | every restored convolution finds its source weights in the result |
| Converter.TraceMeans | scripts/convert_gigaam_candle.py:172-191 | what the trace finds, on the graph: an addition of one bias and the last producer of its other input, a matrix product, whose first anonymous initializer is the weight |
| Converter.WeightKeyIs | scripts/convert_gigaam_candle.py:200-200 | the key is the bias name with its ending exchanged |
| Converter.TransposedSaves | scripts/convert_gigaam_candle.py:196-199 | a rectangular weight is saved with its rows as columns, entry by entry |
| Converter.WeightKeyInjective | scripts/convert_gigaam_candle.py:200-200 | different biases give different output keys |
| Converter.LinearAddHasTwoInputs | scripts/convert_gigaam_candle.py:175-187 | the separate failure for additions with other than two inputs can never be raised |
| Converter.OntoIsInjective | scripts/convert_gigaam_candle.py:210-222 | as many consumed weights as keys means no weight is shared |
| Converter.RecoverLinear | scripts/convert_gigaam_candle.py:166-208 | the loop pairs keys and weights exactly as the trace does, failing exactly on a repeated key |
| Converter.CopyNamed | scripts/convert_gigaam_candle.py:226-239 | copies every named initializer, failing exactly when one collides with a recovered key |
| Converter.ChecksDecide | scripts/convert_gigaam_candle.py:210-237 | the counting checks decide whether the graph has a one-to-one, complete and collision-free pairing |
| Converter.ConvertEncoder | scripts/convert_gigaam_candle.py:145-243 | succeeds on exactly the convertible graphs; then keys and anonymous weights are in bijection, each weight is saved with rows and columns exchanged, copied and recovered names are disjoint, and there are as many tensors as initializers |
| Ctc.NoLabels | scripts/finetune_multilingual_pilot.py:91-92 | no frames, no labels |
| Ctc.LabelsSnoc | scripts/finetune_multilingual_pilot.py:91-92 | one more frame adds its label unless blank or a repeat of the frame before |
| Ctc.MaskIsGrouping | scripts/audit_small_precision.py:61-63 | the change-mask collapse equals the group-by collapse for every non-empty frame sequence |
| Ctc.FramesNeeded | scripts/finetune_multilingual_pilot.py:175-176 | no frame sequence is shorter than its labels plus their equal neighbours |
| Ctc.ShortestCollapses | scripts/finetune_multilingual_pilot.py:175-176 | a sequence of exactly that length collapses to the target |
| Ctc.FitsIffReachable | scripts/finetune_multilingual_pilot.py:175-178 | some frame sequence of a given length collapses to the target exactly when the filter's inequality holds and the target has no blank |
| Ctc.NeighboursAgree | scripts/finetune_multilingual_pilot.py:173-175 | counting equal neighbours on characters, as the code does, equals counting them on tokens |
| Ctc.TokenIsLast | scripts/finetune_multilingual_pilot.py:164-173 | the token of a character is the last place it has in the vocabulary |
| Ctc.SelectTraining | scripts/finetune_multilingual_pilot.py:166-179 | keeps, in order and with their tokens, exactly the rows that fit, and excludes the others with the right reason |
| Ctc.FilterIsExact | scripts/finetune_multilingual_pilot.py:164-179 | kept texts can be decoded from that many frames; without duplicate vocabulary entries all such texts are kept |
| Ctc.DuplicateEntryDefeatsFilter | scripts/finetune_multilingual_pilot.py:164-178 | any repeated vocabulary entry lets two frames decode to a text that the filter excludes |
| Ctc.FilterExactIffDistinct | scripts/finetune_multilingual_pilot.py:164-179 | the filter keeps exactly the decodable texts, for all texts and frame counts, if and only if no vocabulary entry is repeated |
| Ctc.ScoreFrames | scripts/bench-confidence-normalization.rs:23-48 | eager and deferred scoring perform the same additions in the same order, for an addition of which nothing is assumed |
| Ctc.PassAddsUp | scripts/bench-confidence-normalization.rs:26-44 | a pass adds, once and in order, the confidence of the best class of each row whose best class is not its last and, with repeats skipped, not the one before |
| Ctc.EmittedAreLabels | scripts/bench-confidence-normalization.rs:26-39 | with repeats skipped and rows of one width, the scored frames are those of the group-by collapse |
| NumberWords.DecimalReads | benchmark/common.py:304-304 | a decimal reads back as its number and has at most three digits exactly below a thousand |
| NumberWords.WordsToNumbers | benchmark/common.py:287-334 | the loop over four state variables computes the accumulator's output |
| NumberWords.ValueSnoc | benchmark/common.py:315-328 | one more word adds its value, or multiplies the group before it |
| NumberWords.ConvertSegments | benchmark/common.py:287-334 | for any input the output is the tokens cut into consecutive pieces, plain tokens in place and each longest stretch that can be one number as the decimal of its value |
| NumberWords.CutUnique | benchmark/common.py:310-334 | there is only one such cut of a token list |
| NumberWords.OnlyExplanation | benchmark/common.py:287-334 | so an output explained by such a cut is the output the program computes |
| NumberWords.PlainNumberBound | benchmark/common.py:321-328 | without thousands or millions one number is at most 999 |
| NumberWords.EmittedNumbersAreShort | benchmark/common.py:310-334 | then every emitted token has at most three digits |
| NumberWords.SpellingRoundTrip | benchmark/common.py:287-334 | the canonical spelling of any number below a thousand million converts to the one token that reads back as it |
| NumberWords.LeadingZeroSwallowed | benchmark/common.py:322-327 | "zero, six hundred" converts to 600 alone |
| NumberWords.NumbersStayApart | benchmark/common.py:321-328 | any list of canonically spelled numbers converts to their decimals exactly when each starts with a plain word whose scale is at least that of the word before, after a last group that is not zero; otherwise to fewer tokens |
| NumberWords.MergeDigitGroups | benchmark/common.py:337-357 | the loop merges each maximal digit run whose tokens are all short and leaves the others |
| NumberWords.MergeDecides | benchmark/common.py:337-357 | a run of digit tokens becomes one if none is longer than three digits, and stays as it is otherwise |
| NumberWords.JoinAppend | benchmark/common.py:350-350 | joining tokens puts their characters one after the other |
| NumberWords.MergePreserves | benchmark/common.py:337-357 | merging keeps every character and every token that is not digits |
| NumberWords.MergeIdempotent | benchmark/common.py:337-357 | merging twice is merging once |
| NumberWords.ConvertSplits | benchmark/common.py:329-331 | a token that is no number word separates conversion on its two sides |
| NumberWords.MergeSplits | benchmark/common.py:354-356 | a token that is not digits separates merging on its two sides |
| NumberWords.RunBecomesOneToken | benchmark/common.py:408-409 | a scale-free run of number words always ends up as one digit token, its surroundings unaffected; on each side it is at the end of the text or next to a token that is neither a number word nor digits |
| Stitching.Windows | scripts/longform_stitch.py:261-262 | the strided windows with the break condition cover every sample and the last ends exactly at the end of the data |
| Stitching.ChooseSeam | scripts/longform_stitch.py:275-286 | the seam is the centre of that region if its mean square is at most 327.68 squared, else the midpoint, always between 0.3 and 1.7 seconds |
| Stitching.QuietestIsBest | scripts/longform_stitch.py:282-286 | the chosen region has the least energy of all places on the grid, is nearest to one second among those, and earliest among the nearest |
| Stitching.SeamInOverlap | scripts/longform_stitch.py:275-286 | in samples, the seam lies in the two seconds its window shares with the one before |
| Stitching.SeamsIncrease | scripts/longform_stitch.py:275-286 | seams strictly increase whichever rule chose each |
| Stitching.Stitch | scripts/longform_stitch.py:287-292 | the loop folds the merge over the windows |
| Stitching.SelectionPicks | scripts/longform_stitch.py:290-290 | a merge keeps the earlier words up to the seam and the later ones after it, each in order and none twice |
| Stitching.StitchIsOwnership | scripts/longform_stitch.py:287-292 | the fold equals the owned words of each window, in window order |
| Stitching.OwnedWords | scripts/longform_stitch.py:287-290 | a window owns exactly its words past its seam and not past the next; the lower bound is waived exactly when nothing had been kept |
| Stitching.IntervalOwnership | scripts/longform_stitch.py:287-292 | every word between its window's seam and the next is in the result, and none past the next seam is owned |
| Stitching.StitchedSorted | scripts/longform_stitch.py:287-292 | the result is sorted by start if each window is |
| Stitching.WordLostAtSeam | scripts/longform_stitch.py:287-290 | two windows that both hear a word can both drop it |
| Stitching.StitchedByTime | scripts/longform_stitch.py:287-292 | in times alone, once the first window has a word up to the second seam |
| Stitching.StitchedWords | scripts/longform_stitch.py:287-292 | a word is in the result if and only if some window heard it past its own seam (or when nothing was kept) and not past the next |
| OrderAudit.AlternationUnique | scripts/audit_ready_resources.py:195-216 | the event list determines its attempts and what is still running |
| OrderAudit.AuditEvents | scripts/audit_ready_resources.py:195-229 | accepts exactly the lists that are matched attempts one after another, then at most one start in partial mode, with successful jobs a prefix of the expected order |
| OrderAudit.AcceptedOrder | scripts/audit_ready_resources.py:197-229 | successful jobs are a duplicate-free prefix of the expected order; events alternate start and end of one job and process, each end stamped no earlier than its start |
| OrderAudit.StampsMayOverlap | scripts/audit_ready_resources.py:211-212 | accepted ledger timestamps themselves may overlap |
| OrderAudit.StampsApart | scripts/audit_ready_resources.py:206-236 | attempts do not overlap by their stamps exactly when the sorted stamps pass the neighbour check made on measured intervals |
| OrderAudit.SortedCheckDecides | scripts/audit_ready_resources.py:234-236 | sorting and comparing neighbours decides pairwise non-overlap of intervals in any order |
| OrderAudit.AdjacentIffApart | scripts/audit_ready_resources.py:234-236 | on sorted intervals the adjacent check decides pairwise non-overlap |
| OrderAudit.SortedByTimes | scripts/audit_ready_resources.py:234-234 | intervals are compared in order of start, then end, then the rest |
| OrderAudit.CheckIntervals | scripts/audit_ready_resources.py:232-236 | sorting and comparing neighbours accepts exactly pairwise non-overlapping intervals in the expected order |
| OrderAudit.CompletedInTimes | scripts/audit_ready_resources.py:220-236 | in a completed audit each report ran inside a successful attempt of its job and process, and any two measured intervals are apart, in times |
| OrderAudit.AuditCompleted | scripts/audit_ready_resources.py:189-236 | a completed audit holds exactly when the ledger is whole and in order, each report lies inside its job's attempt, and the measured intervals are pairwise apart |
| Skeleton.CodeSkeleton | scripts/check-docs-drift.py:207-237 | the in-place scan that jumps over comments and strings blanks exactly the characters a four-state automaton marks |
| Skeleton.PlainUnchanged | scripts/check-docs-drift.py:213-237 | text without a quote and without a double slash is unchanged |
| Skeleton.StringBlanked | scripts/check-docs-drift.py:222-234 | after plain code, a string with its escapes becomes spaces but for newlines, and the rest is treated on its own |
| Skeleton.OpenStringBlanked | scripts/check-docs-drift.py:222-234 | a string that is never closed is blanked to the end |
| Skeleton.CommentBlanked | scripts/check-docs-drift.py:216-221 | after plain code, a comment becomes spaces up to its newline, and the rest is treated on its own |
| Skeleton.EveryShape | scripts/check-docs-drift.py:214-237 | every text begins in one of these ways |
| Skeleton.ShapeCleaned | scripts/check-docs-drift.py:207-237 | so these laws fix the skeleton of every text, piece by piece |
| Skeleton.SkeletonClean | scripts/check-docs-drift.py:207-237 | same length and newlines, no quote and no double slash left |
| Skeleton.SkeletonIdempotent | scripts/check-docs-drift.py:207-237 | a second pass changes nothing |
| Skeleton.BraceSpan | scripts/check-docs-drift.py:240-250 | returns the first closing brace at depth zero, or none if there is none |
| Skeleton.SpanIsBalanced | scripts/check-docs-drift.py:240-250 | from an opening brace the span is the unique balanced stretch |
| Skeleton.NoSpanIffOpen | scripts/check-docs-drift.py:240-250 | none is reported exactly when the depth never returns to zero |
| Sorting.SortCorrect | scripts/audit_ready_resources.py:234-234 | sorting gives an ordered permutation |
| Bootstrap.BootstrapCi | benchmark/common.py:483-511 | the generator-driven loops compute the percentile entries of the resampled rates |
| Bootstrap.BootstrapDeltaCi | benchmark/streaming.py:148-173 | the paired bootstrap draws the same resamples for the rate differences |
| Bootstrap.FirstDraws | benchmark/common.py:495-502 | the first states of the generator and what they draw out of ten |
| Bootstrap.RateIs | benchmark/common.py:505-505 | a rate is errors in the hundred words, or zero without words |
| Bootstrap.DeltaIsDifference | benchmark/streaming.py:168-171 | the paired statistic is the rate of the run less the rate of the baseline |
| Bootstrap.IntervalIsPercentiles | benchmark/common.py:508-511 | the interval's ends are the entries at 2.5 and 97.5 percent of the statistics in ascending order |
| Bootstrap.IntervalWithinSampleRates | benchmark/common.py:483-511 | the interval is ordered and lies between the smallest and largest per-sample rate |
| Bootstrap.DeltaAgainstPerfectBaseline | benchmark/streaming.py:148-173 | against an error-free batch the paired interval is the plain one |

## Left out

- HTTP, WebSocket, subprocess, git, ffmpeg and lock calls: only their effect is modelled (a request's outcome, the file's bytes, one writer at a time). A process crash is modelled; loss of unsynced bytes on power failure is not.
- JSON: an encoding is any function whose rows contain no raw line break and decode to themselves; preflight, server health, identity metadata, warm-up and digest checks are single branches and are not modelled.
- Model inference and tensor kernels: graph operators, argmax, confidence and scoring functions are parameters.
- Text normalization, tokenizing expressions, the Russian word tables and the anglicism map: the number-word table is a parameter with stated bounds on its entries, and a digit token is a non-empty string of the ASCII digits.
- Floating point: times, rates, energies and thresholds are exact; timing and memory figures are not modelled.
- Bodies of branches and loops: a body of a branch or loop is represented by the outer names it reads; the nodes inside it are part of the operator.
- PoolLedger.FinishedRunIsComplete: says nothing about termination of requests; a request that never returns leaves the run unfinished.
- Ctc.FilterIsExact: the vocabulary is a list of characters; entries of several characters, which can never match one character of a text, are not represented.
- Stitching.ChooseSeam: the sum of squares is over unbounded integers, as in Python, and the comparison with the threshold is exact.
- Converter.ConvertEncoder: the check that tensors are float, and the comparison of the saved file with the expected shapes, are not modelled.
- OrderedLedger.Writer.Evaluate: recognitions finish between appends here; between two writes of one record they are covered by the protocol (`Recognize`). The number of model instances, and the comparison of an already published result with a complete ledger, are not modelled.
- OrderAudit.AuditEvents: the checks of a recorded command line are one boolean of the event.
- Skeleton.CodeSkeleton: no claim is made about the full lexical syntax of Rust (character literals, raw strings and block comments).
- The Rust engine, the disk cache, histograms, dataset preparation, the example clients, and the summaries and gates printed by the tools.
