# skpm core, modelled in Dafny

This project models the data-handling core of skpm, a library for predictive
process monitoring on event logs. The model covers these parts:

- **XES flattening.** An XES document (IEEE Std 1849-2016) becomes one
  attribute record per event. `parse_trace` and `read_from_xes` are modelled,
  including the serialise-and-reparse path of the parallel reader.
- **Unbiased split.** The temporal train/test split works in three stages:
  calendar-month bounding, the duration/truncation filter, and the case-level
  split at the separation time.
- **Transition graphs.** The frequency matrix, degrees, density and cycle
  flags are modelled, along with the directed-graph feature extractor built
  on them.
- **N-gram encoding.** Traces are padded with the sentinel -1 and cut into
  windows. The encoder fits a gram vocabulary and reports new grams.
- **Resource-pool extractor.** There are three copies of it. The model covers
  its vocabularies with the reserved label "UNK", unknown-label replacement,
  null checks, the resource/activity profile matrix, and role assignment from
  connected-component labels.
- **Event bucketing.** Two copies: "single", "prefix" and "clustering".
- **Time features.** Accumulated, remaining and execution time, at case level
  (with a time unit) and at event level (in seconds).
- **Prediction targets.** Next activity and remaining time, in two
  generations.
- **Validation helpers.** Two copies: method selection by name, required
  columns, and list coercion.
- **Global configuration.** The column-name configuration of event logs
  (get, set, update, reset, to_dict), the cache path of a dataset file, and
  the constructor and split-parameter guards of a dataset.

An event table is a `seq<Row>`, where a row is (case id, activity, timestamp)
and timestamps are integer seconds. A case is the group of rows sharing a case
id. Operations are pure functions over immutable data. Errors are `Result`
values naming the Python exception (`Failure(ValueError)`, `Failure(KeyError)`,
...).

| file | module | models |
|---|---|---|
| wrappers.dfy | Wrappers | `Option`, `Result` and the exception kinds |
| seqs.dfy | Seqs | sequence helpers: duplicate-freedom, sums, flattening, sorting by a key, rank counting |
| event_table.dfy | EventTable | rows, case ids, per-case rows, start and end, keeping or dropping whole cases |
| xes.dfy | Xes | src/skpm/event_logs/parser.py |
| split.dfy | Split | src/skpm/event_logs/split.py |
| graph.dfy | Graph | src/skpm/utils/graph.py |
| digraph.dfy | Digraph | src/skpm/event_feature_extraction/meta.py |
| ngrams.dfy | Ngrams | src/skpm/encoding/ngrams.py |
| resource.dfy | Resource | the three resource.py copies |
| bucketing.dfy | Bucketing | src/skpm/sequence_encoding/bucketing.py, src/skpm/bucketing/bucketing.py |
| time_features.dfy | TimeFeatures | src/skpm/feature_extraction/case/time.py, src/skpm/event_feature_extraction/time.py |
| targets.dfy | Targets | src/skpm/feature_extraction/targets.py, src/skpm/event_feature_extraction/targets.py |
| validation.dfy | Validation | src/skpm/utils/validation.py, skpm/utils/validation.py |
| log_config.dfy | LogConfig | src/skpm/event_logs/base.py (configuration, file path, dataset guards), src/skpm/event_logs/bpi.py (BPI 2012 entry) |

### Notes on the model

**Things the model abstracts.**

- **Set iteration order.** Where the source enumerates a Python set, the model
  takes the enumeration as a parameter `order`: a duplicate-free listing of
  that set. This covers the states of the frequency matrix and the n-gram
  vocabulary. Every property is proved for all such listings.
- **Month numbering.** Calendar months in the split are an abstract monotone
  function `month` of the timestamp.
- **Component labels.** The resource extractor's `np.corrcoef` and
  `connected_components` are not modelled. Their output, the component label
  of every resource index and the number of components, is an input to `fit`.
  The one failure of that step is modelled: an empty table leaves a 1x1
  profile matrix, its correlation is a 0-d array, and `np.fill_diagonal`
  raises ValueError (`Resource.FitRoles`).

**Places where the model follows the code rather than its documentation or
tests.**

- **`nodes_in_cycles` and self-loops.** The docstring says the function
  "actually returns self-loops". The code looks at powers 2 and up only.
  `Graph.SelfLoopReported` proves that a node with a self-loop is still
  flagged once `max_cycle_length >= 2`, because its diagonal entry stays
  positive in every power.
- **The resource example.** The documented example prints the roles
  `[0 1 0 1]`. In the code, "UNK" holds index 0 and its all-zero profile row
  is a component of its own (role 0), so R1 and R2 get roles 1 and 2.
  `Resource.ExampleRoles` states the code's result.
- **A data label "UNK".** It overwrites the reserved entry of `stoi`, so the
  vocabulary has one key fewer than `itos`, and the largest index equals the
  number of rows of the profile matrix. numpy rejects that index, so `fit`
  fails with IndexError (`Resource.UnkIndexOutOfRange`, `Resource.FitRoles`).
- **Unknown bucketing method.** tests/sequence_encoding/test_bucketing.py
  expects an AssertionError. The current transformer declares a parameter
  constraint instead, and that raises sklearn's InvalidParameterError, a
  ValueError. `Bucketing.Transform` returns ValueError. Only the legacy
  constructor raises AssertionError (`Bucketing.New`).
- **Unknown bucketing method without validation.** Had the parameter check
  been bypassed, the branches would assign no label, and returning the unset
  variable raises UnboundLocalError (`Bucketing.Buckets`).
- **Next-activity fill token.** The current `next_activity` fills with
  `elc.EOT`, but src/skpm/config.py defines no `EOT`, so it raises
  AttributeError (`Targets.NextActivityAsWritten`). The intended function,
  `Targets.NextActivity`, takes the fill token as a parameter.

## Model

| member | source | states |
|---|---|---|
| Xes.ChildrenWithTag | src/skpm/event_logs/parser.py:30 | `findall` keeps exactly the direct children carrying the tag, never more than there are children, and none when no child has the tag |
| Xes.ChildrenWithTagAppend | src/skpm/event_logs/parser.py:30 | `findall` keeps document order: selecting from two runs of children joins the two selections |
| Xes.ChildrenWithTagAllMatch | src/skpm/event_logs/parser.py:30 | every match is kept, repeated elements included: when all children carry the tag, all come back in order |
| Xes.OverlaySpec | src/skpm/event_logs/parser.py:34-36 | assigning pairs into a dict left to right: the keys are the old keys plus the assigned ones, an unassigned key keeps its value, and the last assignment of a key wins |
| Xes.UpdateIsOverlay | src/skpm/event_logs/parser.py:38 | `event.update(case)` with a case map built by assignments equals making those assignments after the event's own |
| Xes.CaseAttrsKindOrder | src/skpm/event_logs/parser.py:25-28 | case attributes are assigned kind by kind (string, date, float, boolean, int), document order only within a kind |
| Xes.CaseAttrsKeys | src/skpm/event_logs/parser.py:24-28 | a case attribute exists exactly for each direct child of the trace whose tag is one of the five kinds; deeper elements never contribute |
| Xes.CaseKeysPrefixed | src/skpm/event_logs/parser.py:27 | every case attribute key starts with `case:` (a missing key prints as `case:None`) |
| Xes.EventAttrsSpec | src/skpm/event_logs/parser.py:32-36 | an event's attributes are the last-write-wins overlay of the recognised elements of a pre-order walk of its whole subtree, and its keys are exactly their keys |
| Xes.ParseTrace | src/skpm/event_logs/parser.py:30-42 | one record per direct `event` child of the trace |
| Xes.ParseTraceRecords | src/skpm/event_logs/parser.py:38-42 | record i belongs to the i-th direct event child; its keys are the event's plus the case's, every case attribute wins, every other key keeps the event's value |
| Xes.EventValueKept | src/skpm/event_logs/parser.py:38 | an event attribute is overridden only when its own key starts with `case:` |
| Xes.RoundTrip | src/skpm/event_logs/parser.py:45-48 | reading back a serialised element returns that element and leaves the tokens that follow untouched |
| Xes.RoundTripAll | src/skpm/event_logs/parser.py:80-83 | reading back the serialisation of a list of traces returns the same list |
| Xes.SerializedParse | src/skpm/event_logs/parser.py:11-22 | parsing a serialised trace gives the same records as parsing the trace itself |
| Xes.ParallelReadIsSequential | src/skpm/event_logs/parser.py:76-84 | the parallel branch (serialise each trace, parse, chain in submission order) returns exactly the sequential result |
| Xes.ReadFromXes | src/skpm/event_logs/parser.py:51-84 | ValueError iff `n_jobs` is 0, which joblib's `Parallel` refuses; for every other `n_jobs` the result is the per-trace records of the top-level traces, concatenated in document order, and a root without trace children gives an empty log |
| Xes.LogRecordsLength | src/skpm/event_logs/parser.py:74-79 | the log holds one record per direct event child of each top-level trace |
| Xes.CaseKindPrecedenceExample | src/skpm/event_logs/parser.py:25-28 | an `int` case attribute beats a `string` one with the same key, although the string comes later in the document |
| Xes.NestedEventAttrExample | src/skpm/event_logs/parser.py:33-36 | an attribute nested below a `list` element still counts, and a later duplicate key overwrites the earlier one |
| Split.BoundedKeepsWholeCases | src/skpm/event_logs/split.py:5-27 | a case survives bounding iff its start month is at or after the lower bound and its end month at or before the upper bound (a missing bound defaults to the table's first or last month); a surviving case keeps all its rows in order, a dropped one keeps none |
| Split.BoundedDefaultsKeepAll | src/skpm/event_logs/split.py:12-21 | with neither bound given, the default bounds keep every row, for any monotone month numbering |
| Split.DurationFilterKeepsWholeCases | src/skpm/event_logs/split.py:30-50 | a case survives iff it lasts at most `max_days` days (times the slack factor) and starts no later than `max_days` before the table's last timestamp; survivors keep all their rows in order |
| Split.Trunc | src/skpm/event_logs/split.py:118 | Python's `int()` on a real: the integer part, truncated toward zero for negative values |
| Split.CasesByStart | src/skpm/event_logs/split.py:113-120 | the case starts sorted: every case exactly once, ordered by start time |
| Split.SeparationTime | src/skpm/event_logs/split.py:118-121 | the separation time exists iff the cutoff rank is a valid numpy index, and it is then the start time of some case |
| Split.SeparationKey | src/skpm/event_logs/split.py:118-121 | for a rank k in [0, n), the separation time is the start of the case of rank k |
| Split.SeparationWrapsAround | src/skpm/event_logs/split.py:118-121 | a test share above one makes the cutoff rank k negative; numpy then counts from the end, so the separation time is the start of the case ranked n + k |
| Split.SplitTable | src/skpm/event_logs/split.py:123-133 | test holds exactly the cases ending at or after the separation time; train holds exactly the cases ending before it |
| Split.SplitTableValue | src/skpm/event_logs/split.py:122-133 | train is the `~isin` selection of the table's rows and test the `isin` selection of the test cases, both in table order |
| Split.SplitPartitions | src/skpm/event_logs/split.py:123-133 | train and test have disjoint cases that together are all cases, and together they hold every row exactly once |
| Split.SplitKeepsCasesWhole | src/skpm/event_logs/split.py:126-133 | a case in either output keeps all its rows, in table order |
| Split.UnbiasedSplitsFiltered | src/skpm/event_logs/split.py:105-133 | `unbiased` partitions the bounded-and-filtered table: disjoint train and test cases that cover its cases, and every one of its rows exactly once |
| Split.FewCasesStartBeforeSeparation | src/skpm/event_logs/split.py:118-121 | at most k cases start strictly before the separation time |
| Split.ManyCasesStartBySeparation | src/skpm/event_logs/split.py:118-121 | at least k + 1 cases start at or before the separation time |
| Split.TestHoldsLateCases | src/skpm/event_logs/split.py:118-128 | the test set holds at least n - k cases, since every case of start rank k or later is in it |
| Split.NonOverlappingTest | src/skpm/event_logs/split.py:123-125 | when no two cases overlap in time, the cases ending at or after the start of a case are exactly those starting at or after it |
| Split.NonOverlappingTestSize | src/skpm/event_logs/split.py:118-128 | with non-overlapping cases the test set is exactly the cases of start rank k and later, n - k of them |
| Graph.StoiItosInverse | src/skpm/utils/graph.py:69-70 | `stoi` maps the states one-to-one onto 0 .. n-1 and `itos` is its inverse in both directions |
| Graph.TransitionMembers | src/skpm/utils/graph.py:73-74 | both states of a transition occur in one and the same trace |
| Graph.TransitionsLength | src/skpm/utils/graph.py:73-75 | the number of transitions is the sum over traces of max(len - 1, 0) |
| Graph.CountMatrixSnoc | src/skpm/utils/graph.py:75 | counting one more transition increments exactly the cell of its two states |
| Graph.FrequencyMatrix | src/skpm/utils/graph.py:69-77 | KeyError iff some transition uses a state outside the enumeration; otherwise the n-by-n matrix whose cell (i, j) counts the transitions from state i to state j, summing to the number of transitions |
| Graph.ColumnSumsSpec | src/skpm/utils/graph.py:97 | `sum(axis=0)` is the sum of each column, and the column sums add up to the matrix total |
| Graph.DegreeSums | src/skpm/utils/graph.py:97-98 | the in-degrees and the out-degrees each add up to the number of transitions |
| Graph.SimpleDensityBounds | src/skpm/utils/graph.py:117-121 | a graph with at least two nodes, no self-loops and no repeated edge has a density in [0, 1] |
| Graph.NodesInCyclesSpec | src/skpm/utils/graph.py:148-162 | node i is flagged iff some power 2..max of the matrix has a positive entry (i, i) |
| Graph.ShortMaxFlagsNothing | src/skpm/utils/graph.py:154-160 | with a maximum length below 2 no node is flagged |
| Graph.SelfLoopReported | src/skpm/utils/graph.py:148-162 | with non-negative counts, a node with a self-loop is flagged once the maximum length is at least 2 |
| Graph.ExampleFrequencyMatrix | tests/utils/test_graph.py:26-34 | traces [1,2,3] and [1,2,3,4] over states 1..4 give [[0,2,0,0],[0,0,2,0],[0,0,0,1],[0,0,0,0]] |
| Graph.ExampleDegrees | tests/utils/test_graph.py:42-45 | that matrix has in-degrees [0,2,2,1] and out-degrees [2,2,1,0] |
| Graph.ExampleDensity | tests/utils/test_graph.py:48-50 | that matrix has density 5/12 |
| Graph.Cycle3AllInCycles | tests/utils/test_graph.py:53-55 | every node of the 3-cycle is flagged with maximum length 3 |
| Digraph.FrequencyMatrix | src/skpm/event_feature_extraction/meta.py:178-186 | KeyError iff a transition uses a state outside the enumeration; otherwise the transition-count matrix summing to the number of transitions, with `stoi` over exactly the states and `itos` its inverse |
| Digraph.NodeDegree | src/skpm/event_feature_extraction/meta.py:206-209 | one in-degree and one out-degree per node, each list adding up to the matrix total |
| Digraph.Density | src/skpm/event_feature_extraction/meta.py:226-230 | defined iff there are at least two nodes, and then density times n(n-1) is the matrix total |
| Digraph.NodesInCycles | src/skpm/event_feature_extraction/meta.py:257-271 | one flag per node, set iff some power 2..max has a positive diagonal entry at that node |
| Digraph.Traces | src/skpm/event_feature_extraction/meta.py:67 | one activity list per case |
| Digraph.TracesPermutation | src/skpm/event_feature_extraction/meta.py:67 | the traces hold each event's activity exactly once: their concatenation is a permutation (multiset) of the activity column |
| Digraph.TracesCovered | src/skpm/event_feature_extraction/meta.py:67-74 | every state of every trace lies in the log's activity set, so building the matrix in `fit` never raises KeyError |
| Digraph.FeaturesAsWrittenEmpty | src/skpm/event_feature_extraction/meta.py:77-78 | with the arguments in the order the code passes them, any name or list of names selects no feature |
| Digraph.Features | src/skpm/event_feature_extraction/meta.py:77-79 | the selected features are the requested public graph methods and never the matrix builder |
| Digraph.FeaturesAll | src/skpm/event_feature_extraction/meta.py:77-79 | the default request selects density, node_degree and nodes_in_cycles |
| Digraph.Fit | src/skpm/event_feature_extraction/meta.py:67-80 | `fit` as written stores the transition matrix of the log's cases over its activity set, a `stoi` over exactly those activities with `itos` its inverse, and, for any requested name or list of names, no feature at all and a feature count of 0 |
| Digraph.FitIntended | src/skpm/event_feature_extraction/meta.py:67-80 | `fit` as intended: the same matrix and vocabularies, with the requested public graph methods as `features_`; the default request gives three features |
| Digraph.Transform | src/skpm/event_feature_extraction/meta.py:98-109 | NotFittedError iff not fitted; otherwise a square frame of the fitted matrix whose rows are `from_<state>` and columns `to_<state>` in `itos` order |
| Digraph.FitThenTransform | src/skpm/event_feature_extraction/meta.py:67-109 | after `fit`, `transform` succeeds with one row per activity, labelled `from_` plus the activity in enumeration order |
| Digraph.EmptyLogEmptyFrame | tests/event_feature_extraction/test_digraph.py:25-30 | an empty log transforms to an empty frame |
| Digraph.TransformUnfitted | tests/event_feature_extraction/test_digraph.py:20-23 | `transform` before `fit` raises NotFittedError |
| Ngrams.Padded | src/skpm/encoding/ngrams.py:35-36 | the padded trace is the trace with -1 before it and after it |
| Ngrams.TraceToNgram | src/skpm/encoding/ngrams.py:32-41 | max(len + 3 - N, 0) grams, each of length N; the first starts and the last ends with the sentinel |
| Ngrams.GramsOverlap | src/skpm/encoding/ngrams.py:38-40 | consecutive grams overlap in all but one position |
| Ngrams.ReassembleGrams | src/skpm/encoding/ngrams.py:32-41 | when N <= len + 2 the grams determine the trace: their first elements plus the tail of the last gram give back the padded trace |
| Ngrams.BigramsArePairs | src/skpm/encoding/ngrams.py:37-41 | with N = 2 the grams are the len + 1 consecutive pairs of the padded trace |
| Ngrams.TraceToNgramExample | tests/encoding/test_ngrams_encoding.py:10-14 | [1,2,3,4,5] with N = 2 gives (-1,1), (1,2), (2,3), (3,4), (4,5), (5,-1) |
| Ngrams.TracesToNgrams | src/skpm/encoding/ngrams.py:71-74 | each trace is mapped independently, and a gram is unique-listed iff it occurs in some trace's grams |
| Ngrams.UniqueGramsSnoc | src/skpm/encoding/ngrams.py:73 | adding a trace adds exactly its grams to the unique set |
| Ngrams.Vocab | src/skpm/encoding/ngrams.py:137 | the vocabulary's keys are the enumerated grams, and each gram's index points back to it |
| Ngrams.VocabBijective | src/skpm/encoding/ngrams.py:137 | distinct grams get distinct indices, and the indices are exactly 0 .. n-1 |
| Ngrams.FeatureNamesOut | src/skpm/encoding/ngrams.py:114-115 | a single output column whose name ends in "-grams", whether fitted or not |
| Ngrams.FeatureNameGivesN | src/skpm/encoding/ngrams.py:114-115 | the column name `f"{N}-grams"` gives N back: the part before "-grams" is N's decimal numeral |
| Ngrams.Fit | src/skpm/encoding/ngrams.py:133-137 | after `fit` the vocabulary covers exactly the unique grams of the log, with indices below their number |
| Ngrams.ExplodeSpec | src/skpm/encoding/ngrams.py:175-176 | one row per gram (one for a case without grams); each names an existing case, and a row that carries an index carries the index of some vocabulary gram |
| Ngrams.ExplodeAt | src/skpm/encoding/ngrams.py:175-176 | numbering the rows case by case, the k-th row of case i carries i and the encoding of the case's k-th gram, or no value for a case without grams |
| Ngrams.RowPosition | src/skpm/encoding/ngrams.py:175 | every output row number is the k-th row of exactly one case i in that numbering |
| Ngrams.Transform | src/skpm/encoding/ngrams.py:159-178 | NotFittedError iff not fitted; otherwise only `new_ngrams_` changes, and it holds exactly the grams of the log outside the vocabulary; one output row per gram |
| Ngrams.TransformRows | src/skpm/encoding/ngrams.py:159-178 | the k-th output row of case i carries case position i and the vocabulary index of the case's k-th gram, no value (NaN) when the gram was not seen in `fit`, and no value for a case without grams |
| Ngrams.TransformRowsCovered | src/skpm/encoding/ngrams.py:159-178 | conversely, every output row is the row of one case and one of its grams, with that gram's encoding |
| Ngrams.FitTransformNoNew | src/skpm/encoding/ngrams.py:133-168 | transforming the log the encoder was fitted on finds no new gram |
| Ngrams.ExampleUnique | tests/encoding/test_ngrams_encoding.py:62-80 | the unique bigrams of the new log: the fitted log's four plus (20,40) and (40,-1) |
| Ngrams.NewNgramsExample | tests/encoding/test_ngrams_encoding.py:62-80 | the new grams of that log are exactly (20,40) and (40,-1) |
| Resource.ValidateData | src/skpm/feature_extraction/event/resource.py:195-206 | ValueError iff a named column is missing or holds a null; otherwise both columns with every value present |
| Resource.NullRejected | src/skpm/event_feature_extraction/resource.py:197-200 | a single null in either column makes validation fail with ValueError |
| Resource.ValidateDataColumns | skpm/event_feature_extraction/resource.py:103-111 | a missing activity or resource column fails with ValueError, and validation reads only the two named columns |
| Resource.Stoi | src/skpm/feature_extraction/event/resource.py:268-271 | keys are "UNK" plus the labels; label i has index i + 1, and "UNK" keeps 0 unless a label is "UNK" |
| Resource.Itos | src/skpm/feature_extraction/event/resource.py:268-271 | indices 0 .. n; 0 is "UNK" and i + 1 is label i |
| Resource.Vocab | src/skpm/feature_extraction/event/resource.py:115-116 | the vocabulary of a column covers exactly "UNK" and the column's values |
| Resource.VocabInverse | src/skpm/event_feature_extraction/resource.py:260-263 | without a label "UNK", `stoi` and `itos` are inverse bijections |
| Resource.VocabSize | skpm/event_feature_extraction/resource.py:132-136 | `stoi` has one key per label, plus "UNK" unless a label took it |
| Resource.VocabIndices | src/skpm/feature_extraction/event/resource.py:268-271 | without a label "UNK" the indices are distinct and lie below the number of keys |
| Resource.UnkLabelTakesOver | src/skpm/feature_extraction/event/resource.py:268-271 | a label "UNK" takes a non-zero index in `stoi` while `itos[0]` still reads "UNK" |
| Resource.CheckUnknown | src/skpm/feature_extraction/event/resource.py:239-251 | same length; a value becomes "UNK" iff it is outside the vocabulary, and every other value is unchanged |
| Resource.CheckUnknownInVocab | src/skpm/feature_extraction/event/resource.py:249 | once "UNK" is in the vocabulary, every checked value is in it |
| Resource.CheckUnknownIdempotent | skpm/event_feature_extraction/resource.py:123-130 | checking twice is checking once |
| Resource.CheckUnknownKnownUnchanged | src/skpm/event_feature_extraction/resource.py:233-243 | known input comes back unchanged, and only out-of-vocabulary positions change |
| Resource.ValueCounts | src/skpm/feature_extraction/event/resource.py:122-123 | the counts cover exactly the occurring pairs, each with its positive number of occurrences |
| Resource.BuildProfiles | src/skpm/feature_extraction/event/resource.py:131-134 | the profile loop fills cell (resource, activity) with the pair's count and leaves every other cell 0 |
| Resource.ProfilesSnoc | src/skpm/event_feature_extraction/resource.py:125-128 | one more event increments exactly its (resource, activity) cell |
| Resource.ProfileSums | src/skpm/event_feature_extraction/resource.py:118-128 | the profile matrix adds up to the number of events, and row r to the events of resource r |
| Resource.UnkRowZero | src/skpm/feature_extraction/event/resource.py:131-134 | when no event has resource index 0, the "UNK" profile row is all zero |
| Resource.AssignRoles | src/skpm/feature_extraction/event/resource.py:157-160 | each resource index of a component gets that component as its role, and no other index gets a role |
| Resource.RolesPartition | skpm/event_feature_extraction/resource.py:81-89 | when every index has a component, every index gets exactly one role; two indices share a role iff they share a component |
| Resource.ColumnIndices | src/skpm/feature_extraction/event/resource.py:115-119 | every value of a column maps to an index below the size of its vocabulary exactly when the column holds no "UNK" label |
| Resource.UnkIndexOutOfRange | src/skpm/feature_extraction/event/resource.py:131-134 | a resource labelled "UNK" gets an index equal to the number of profile rows, outside the matrix |
| Resource.FittedProfiles | src/skpm/event_feature_extraction/resource.py:118-128 | without "UNK" labels, every event pair indexes the matrix, and the profiles count every event once with an all-zero "UNK" row |
| Resource.PositiveIndices | src/skpm/feature_extraction/event/resource.py:268-271 | without a label "UNK", no value gets index 0 |
| Resource.FitRoles | src/skpm/event_feature_extraction/resource.py:108-156 | ValueError on invalid data, IndexError iff a label is "UNK", and ValueError for an empty table (the 1x1 profile's 0-d `np.corrcoef` is rejected by `np.fill_diagonal`); otherwise the two vocabularies, profiles counting every event with a zero "UNK" row, and the component of each labelled index as its role |
| Resource.Fit | src/skpm/feature_extraction/event/resource.py:99-162 | a threshold outside [0, 1] fails with ValueError; otherwise as the shared fit, failing exactly on invalid data, a "UNK" label or an empty table, with `rtoi` the vocabulary of the resource column |
| Resource.Transform | src/skpm/feature_extraction/event/resource.py:177-180 | NotFittedError before `fit`, ValueError on invalid data; otherwise one entry per row: the role of the row's resource, unseen resources taken as "UNK" |
| Resource.UnseenShareUnkRole | skpm/event_feature_extraction/resource.py:93-97 | a resource unseen during `fit` gets the role of "UNK" |
| Resource.TransformTotal | src/skpm/event_feature_extraction/resource.py:171-174 | when the components label every resource index, every resource gets a role, a seen one its own component's |
| Resource.ExampleRoles | src/skpm/feature_extraction/event/resource.py:62-69 | in the documented example R1 and R2 get roles 1 and 2, and an unseen resource gets role 0 of "UNK" |
| Bucketing.NatToString | src/skpm/sequence_encoding/bucketing.py:70 | `str(n)` is a non-empty string of decimal digits without a leading zero |
| Bucketing.ParseNatToString | src/skpm/sequence_encoding/bucketing.py:70 | reading the numeral back gives the number |
| Bucketing.NatToStringInjective | src/skpm/sequence_encoding/bucketing.py:70 | different numbers have different numerals |
| Bucketing.CumCountLoop | src/skpm/sequence_encoding/bucketing.py:68-69 | one pass with a counter per case gives each row the number of earlier rows of its case |
| Bucketing.CumCountIncreasing | src/skpm/sequence_encoding/bucketing.py:68-69 | later rows of a case get larger positions |
| Bucketing.CumCountBelow | src/skpm/sequence_encoding/bucketing.py:68-69 | a row's position is below the number of rows of its case |
| Bucketing.CumCountOnto | src/skpm/sequence_encoding/bucketing.py:68-69 | every position below the size of a case is taken by one of its rows |
| Bucketing.CasePositions | src/skpm/sequence_encoding/bucketing.py:68-69 | the rows of a case with n rows take exactly the positions 0 .. n-1 |
| Bucketing.BucketLabelRoundTrip | src/skpm/sequence_encoding/bucketing.py:70 | the number after the `b` of a label is the position plus one |
| Bucketing.BucketLabelInjective | src/skpm/sequence_encoding/bucketing.py:70 | different positions give different labels |
| Bucketing.Buckets | src/skpm/sequence_encoding/bucketing.py:62-79 | single: "b1" for every row; prefix: "b(k+1)" for the k-th row of each case; clustering: NotImplementedError; no branch taken: UnboundLocalError; one label per row on success |
| Bucketing.FirstRowB1 | src/skpm/sequence_encoding/bucketing.py:65-72 | with "prefix", the first row of every case gets "b1" |
| Bucketing.Transform | src/skpm/sequence_encoding/bucketing.py:34-79 | an unknown method fails the parameter constraint with ValueError; otherwise as the branches above |
| Bucketing.TransformLegacy | src/skpm/bucketing/bucketing.py:90-107 | for a constructed method: fails iff clustering, with NotImplementedError; single and prefix label as above, one label per row |
| Bucketing.PrefixExample | tests/sequence_encoding/test_bucketing.py:31-37 | cases 1, 2, 1, 1 get positions 0, 0, 1, 2 |
| TimeFeatures.FirstFrom | src/skpm/feature_extraction/case/time.py:40 | the first row of a case at or after a position, or none |
| TimeFeatures.LastBefore | src/skpm/event_feature_extraction/time.py:263 | the last row of a case before a position, or none |
| TimeFeatures.NextPrevInverse | src/skpm/event_feature_extraction/time.py:263 | the previous event of a row's next event within the case is the row itself |
| TimeFeatures.PrevNextInverse | src/skpm/feature_extraction/case/time.py:40 | the next event of a row's previous event within the case is the row itself |
| TimeFeatures.LastOfCase | src/skpm/feature_extraction/case/time.py:40-42 | a row has no next event exactly when no later row shares its case |
| TimeFeatures.UnitMultiplier | src/skpm/feature_extraction/case/time.py:13-19 | seconds per unit are positive, and an unknown unit falls back to 1 |
| TimeFeatures.UnitLadder | src/skpm/feature_extraction/case/time.py:13-19 | a minute is 60 s, an hour 60 min, a day 24 h, a week 7 d |
| TimeFeatures.InUnit | src/skpm/feature_extraction/case/time.py:29 | the value in the unit, multiplied back by the unit's seconds, gives the seconds exactly |
| TimeFeatures.AccumulatedRemainingSplit | src/skpm/feature_extraction/case/time.py:21-61 | both values are non-negative, and they add up to the case duration |
| TimeFeatures.ZeroAtCaseBounds | src/skpm/feature_extraction/case/time.py:21-61 | accumulated time is 0 iff the row is at the case start; remaining time is 0 iff it is at the case end |
| TimeFeatures.GapsAgree | src/skpm/feature_extraction/case/time.py:38-44 | the backward gap of a row's next event is the negated forward gap of the row |
| TimeFeatures.DiffNext | src/skpm/feature_extraction/case/time.py:38-42 | one backward pass gives, for every row, its timestamp minus that of the next event of its case, or nothing for the last one |
| TimeFeatures.DiffPrev | src/skpm/event_feature_extraction/time.py:263 | one forward pass gives, for every row, its timestamp minus that of the previous event of its case, or nothing for the first one |
| TimeFeatures.CaseAccumulatedTime | src/skpm/feature_extraction/case/time.py:21-30 | KeyError iff a label is not a row; otherwise, per label, the time since its case's start in the unit |
| TimeFeatures.CaseRemainingTime | src/skpm/feature_extraction/case/time.py:48-61 | KeyError iff a label is not a row; otherwise, per label, the time until its case's end in the unit |
| TimeFeatures.CaseTimesNonNegative | src/skpm/feature_extraction/case/time.py:21-61 | case-level accumulated and remaining times are never negative |
| TimeFeatures.CaseTimesAddUp | src/skpm/feature_extraction/case/time.py:21-61 | per selected row, accumulated plus remaining time is the case duration in the unit |
| TimeFeatures.CaseExecutionTime | src/skpm/feature_extraction/case/time.py:32-46 | KeyError iff a label is not a row; otherwise, per label, the absolute gap to the next event of the case in the unit, 0 for the case's last event |
| TimeFeatures.CaseExecutionLastZero | src/skpm/feature_extraction/case/time.py:40-42 | the last event of every case has execution time 0 |
| TimeFeatures.ExecutionTime | src/skpm/event_feature_extraction/time.py:247-263 | KeyError iff a label is not a row; otherwise, per label, the gap in seconds to the previous event of the case, 0 for the case's first event |
| TimeFeatures.AccumulatedTime | src/skpm/event_feature_extraction/time.py:265-286 | KeyError iff a label is not a row; otherwise, per label, the seconds since its case's start |
| TimeFeatures.RemainingTime | src/skpm/event_feature_extraction/time.py:288-309 | KeyError iff a label is not a row; otherwise, per label, the seconds until its case's end |
| TimeFeatures.EventTimesNonNegative | src/skpm/event_feature_extraction/time.py:281-309 | event-level accumulated and remaining times are never negative |
| TimeFeatures.CaseLevelInSeconds | src/skpm/feature_extraction/case/time.py:13-30 | in unit "s" the case-level times equal the event-level ones |
| TimeFeatures.ExecutionExample | src/skpm/event_feature_extraction/time.py:240-244 | the docstring's four events, passed through the case-grouped call that `transform` makes (the docstring calls `execution_time` on the ungrouped frame with string timestamps), give execution times 0, 1800, 0, 1800 seconds |
| Targets.NextActivitiesFrom | src/skpm/feature_extraction/targets.py:18-22 | the entries of the rows from a position on, one per row, each its next same-case activity or the fill token |
| Targets.NextActivity | src/skpm/feature_extraction/targets.py:18-22 | one backward pass gives one entry per row: the next same-case activity, or the fill token |
| Targets.NextActivityOfFollower | src/skpm/feature_extraction/targets.py:18-22 | a non-last event gets the activity of the next row of its case, whatever rows of other cases lie between |
| Targets.NextActivityOfLast | src/skpm/feature_extraction/targets.py:20 | the last event of a case gets the fill token |
| Targets.NextActivityComesFromCase | src/skpm/feature_extraction/targets.py:18-22 | every entry is the fill token or the activity of a later row of the same case |
| Targets.NextActivityEot | src/skpm/event_feature_extraction/targets.py:19-23 | the older function: the next same-case activity, or "<EOT>" for a case's last event |
| Targets.ConfigAttr | src/skpm/config.py:4-11 | reading a setting of `EventLogConfig` gives its default for each of the five declared settings, and reading `EOT` raises AttributeError |
| Targets.NextActivityAsWritten | src/skpm/feature_extraction/targets.py:18-22 | the current `next_activity` fails exactly when `EventLogConfig` lacks `EOT`, and otherwise fills with its value |
| Targets.NextActivityAsWrittenFails | src/skpm/feature_extraction/targets.py:20 | since `EventLogConfig` has no `EOT`, every log raises AttributeError, while the intended function gives one entry per row |
| Targets.RemainingTime | src/skpm/feature_extraction/targets.py:38-45 | one value per row: the case-level remaining time in the unit |
| Targets.RemainingTimeBounds | src/skpm/feature_extraction/targets.py:38-45 | the target is never negative, and it is 0 exactly at the case's latest timestamp |
| Targets.LegacyScale | src/skpm/event_feature_extraction/targets.py:39-48 | seconds, minutes, hours and days are accepted with a positive scale; any other unit raises ValueError |
| Targets.LegacyScaleAgrees | src/skpm/event_feature_extraction/targets.py:39-46 | the older scales match the newer unit table: 1, 60, 3600, 86400 seconds |
| EventTable.GroupedRowsPermutation | src/skpm/event_feature_extraction/targets.py:50-52 | grouping the rows case after case, over a listing of all cases, is a permutation of the rows |
| Targets.RemainingOf | src/skpm/event_feature_extraction/targets.py:52 | the time from a row to the end of its case, never negative |
| Targets.LegacyRemainingTime | src/skpm/event_feature_extraction/targets.py:26-55 | ValueError iff the unit is unknown; otherwise one value per grouped row: the time to the end of its case in the unit |
| Targets.LegacyOnePerRow | src/skpm/event_feature_extraction/targets.py:49-55 | one value per row of the log |
| Targets.LegacyNonNegative | src/skpm/event_feature_extraction/targets.py:49-55 | every value is non-negative |
| Targets.LegacyOnGroupedLog | src/skpm/event_feature_extraction/targets.py:49-55 | on a log already grouped case after case, value i belongs to row i |
| Targets.LegacyZeroAtLatest | src/skpm/event_feature_extraction/targets.py:49-55 | every case has a 0, at its latest event |
| Validation.Select | src/skpm/utils/validation.py:27-29 | the kept names are exactly the available ones that are requested and do not start with `_`, in availability order |
| Validation.ValidateMethodsFromClass | src/skpm/utils/validation.py:18-31 | "all" returns every bound method, underscore names included; otherwise the requested public method names in availability order |
| Validation.NoneRequestSelectsNothing | src/skpm/utils/validation.py:22-29 | a `None` request selects nothing |
| Validation.UnderscoreOnlyViaAll | src/skpm/utils/validation.py:22-29 | an underscore name is selected only by the "all" request |
| Validation.SelectedDistinct | src/skpm/utils/validation.py:27-29 | distinct method names give distinct selections |
| Validation.ValidateFeaturesFromClass | skpm/utils/validation.py:18-29 | the legacy selector: "all" returns every method, otherwise the requested public names |
| Validation.ValidateCopiesAgree | skpm/utils/validation.py:5-29 | the legacy selector is the current one with the arguments swapped back |
| Validation.ValidateColumns | src/skpm/utils/validation.py:51-54 | ValueError iff a required column is missing from the input; otherwise the `required` list itself |
| Validation.ValidateColumnsSetBased | skpm/utils/validation.py:49-52 | only the set of input columns matters, not their order or repetition |
| Validation.MissingColumnExample | tests/utils/test_validation.py:8-9 | columns 1, 2, 3 with column 4 required raise ValueError |
| Validation.EnsureList | src/skpm/utils/validation.py:66-71 | a list is returned as is, a string or an integer is wrapped, another iterable is listed; a non-iterable (including `None`) raises TypeError |
| Validation.EnsureListOrEmpty | skpm/utils/validation.py:64-71 | the legacy version turns `None` into the empty list and otherwise behaves the same |
| Validation.EnsureListIdempotent | src/skpm/utils/validation.py:57-71 | coercing a coerced value again changes nothing |
| Validation.EnsureListOrEmptyTotal | skpm/utils/validation.py:64-71 | the legacy version fails only on non-iterable values |
| Validation.EnsureListExamples | tests/utils/test_validation.py:11-15 | "exception" becomes a one-element list, a set of three integers a list |
| LogConfig.ToDict | src/skpm/event_logs/base.py:90-98 | the dictionary has exactly the five setting names |
| LogConfig.ToDictIsConfig | src/skpm/event_logs/base.py:43-66 | the dictionary view is the current configuration, value for value |
| LogConfig.GetGlobalConfig | src/skpm/event_logs/base.py:100-103 | the copy has the same keys and values |
| LogConfig.SetGlobalConfig | src/skpm/event_logs/base.py:105-139 | every setting passed (not `None`) takes the new value, every other keeps the old one |
| LogConfig.SetNothing | src/skpm/event_logs/base.py:130-139 | with no argument, nothing changes |
| LogConfig.UpdateGlobalConfig | src/skpm/event_logs/base.py:141-155 | ValueError iff some name is not a setting; the configuration stays well-formed either way |
| LogConfig.UpdateAllKnown | src/skpm/event_logs/base.py:151-153 | with only known names, every pair is applied in order |
| LogConfig.UpdateStopsAtUnknown | src/skpm/event_logs/base.py:151-155 | the update is not atomic: the pairs before the first unknown name stay applied, then ValueError |
| LogConfig.ApplyChangesOnlyNamed | src/skpm/event_logs/base.py:151-153 | a setting no pair names keeps its value |
| LogConfig.ResetGlobalConfig | src/skpm/event_logs/base.py:157-166 | the five defaults: case:concept:name, concept:name, time:timestamp, org:resource, .parquet |
| LogConfig.ReplaceSuffixes | src/skpm/event_logs/base.py:273 | removing ".gz" turns ".xes.gz" into ".xes", which the format then replaces |
| LogConfig.CachedName | src/skpm/event_logs/base.py:273 | a compressed or plain XES file with a dotless base name is cached as the base name plus the format |
| LogConfig.CachedPath | src/skpm/event_logs/base.py:270-274 | the cache path is root/class name/base name plus format |
| LogConfig.Bpi12CachePath | src/skpm/event_logs/bpi.py:34 | BPI_Challenge_2012.xes.gz is cached as root/BPI12/BPI_Challenge_2012.parquet |
| LogConfig.InitFilePath | src/skpm/event_logs/base.py:346-356 | ValueError iff neither a file path nor a file name is given; an explicit path wins; otherwise the cache path of the file name in the configured format |
| LogConfig.UnbiasedSplitParams | src/skpm/event_logs/base.py:390-397 | ValueError iff the dataset has no split parameters; otherwise those parameters |
| LogConfig.SplitParamsAvailability | src/skpm/event_logs/bpi.py:36-41 | BPI Challenge 2012 has its split parameters (test length 0.2); a dataset without any raises ValueError |

## Left out

- XML reading and memory handling: `etree.parse`, `fromstring`, `tostring` and `clear()` are left out. The document is an already-parsed tree, and serialisation is a token stream with a parser of its own. Malformed XML is lxml's concern.
- An XES element without a `key` or `value` attribute is modelled as an absent option. lxml's `None` and its printing inside the `case:` prefix are kept.
- joblib concurrency is left out. The parallel branch is modelled as an order-preserving map followed by concatenation.
- Timestamp parsing, timezone handling and sorting (`pd.to_datetime`, UTC localisation) are left out. Timestamps are integer seconds and months an abstract monotone function.
- pandas groupby orders groups by sorted key. The model keeps table order where only row positions matter (`cumcount`, grouped `shift`, grouped `diff`). The legacy remaining time takes the group order as a parameter. The digraph traces are listed in first-appearance order of their cases; the transition counts are sums over all traces and do not depend on that order.
- numpy's fixed-width integers (int32 frequency matrix, int32 n-gram traces) are unbounded integers here.
- Graph.NodesInCycles: `np.linalg.matrix_power` of the int32 frequency matrix wraps once an entry of a power passes 2^31, which counts of about 10^4 reach at power 3; the `> 0` diagonal tests can then flip. The flags are proved for exact integer powers only.
- Digraph.NodesInCycles: the same int32 `matrix_power` wrap-around applies to the extractor's copy; its flags are proved for exact integer powers only.
- Floating point: the duration slack factor, densities and time-unit divisions use exact reals.
- Graph.Density, Digraph.Density: with fewer than two nodes numpy divides the total by n(n-1) = 0 and gets nan (a zero total) or inf (one node with self-loop transitions); the model returns `None` for both.
- Split.CutoffRank, Split.SeparationTime: `int(len(grouped) * (1 - test_len))` is computed in floating point by the source and in exact reals here. The two can differ by one when the exact product is an integer: for 10 cases and `test_len=0.9` the source computes 10 * 0.09999999999999998 and truncates to 0, while the model gives 1.
- `np.corrcoef` and scipy's `connected_components` in the resource extractors are inputs to `fit`: the component label of every resource index and the number of components.
- Refitting an already fitted resource extractor is not modelled. Its validation would first map the data through the old vocabulary.
- The warnings (ConceptDriftWarning, new n-grams found) have no effect on results and are not modelled.
- The second `get_feature_names_out` of `EncodedNgrams` (src/skpm/encoding/ngrams.py:183) is commented out; the live one at lines 114-115 is `Ngrams.FeatureNamesOut`. The module-level demo at src/skpm/encoding/ngrams.py:186-194 is a side effect, not part of the encoder.
- Ngrams: the gram size N is a `nat`. A negative N is not modelled.
- src/skpm/base.py (the estimator base classes and their column checks) is not part of this model. Column names are parameters.
- Event-level time features: `Timestamp` is modelled through its formulas only. Its transformer passes its arguments to `validate_methods_from_class` in swapped order (src/skpm/event_feature_extraction/time.py:85), which leaves nothing to model.
- The cyclic event-time encodings, work-in-progress binning, aggregation and indexing encoders, and the variant extractor are left out. They are floating-point or thin pandas/sklearn wrappers.
- Downloading, extraction, caching, parquet writing and lazy loading are left out. Only the cache path and the constructor's path guard are modelled.
- `EventLogConfig.clear_override` refers to an attribute that is never defined and is left out.
- The dataset catalogue constants of bpi.py are left out, except for the BPI Challenge 2012 file name and split parameters.
- Targets.NextActivity: models the evidently intended function, with the fill token as a parameter; the current copy reads the undefined `elc.EOT` (see Findings, `Targets.NextActivityAsWritten`).
- Resource.CheckUnknown, Resource.Transform, Resource.TransformTotal: labels are strings. In the source a non-string column (the integer resources of tests/event_feature_extraction/test_resource.py) with an unseen value becomes a numpy string array once "UNK" is inserted, so `.map(self.rtoi_)` with non-string keys finds no seen label: every seen resource maps to NaN and so does its role; only the "UNK" rows get a role. The model promises a role for every row, which holds for string labels only.
- LogConfig.GetFilePath, LogConfig.CachedPath, LogConfig.Bpi12CachePath, LogConfig.InitFilePath: paths are strings joined with "/", where the source joins `pathlib.Path` objects. pathlib normalises what this model keeps: an empty root stays relative (`BPI12/BPI_Challenge_2012.parquet`, where the model gives `/BPI12/...`), an absolute file name replaces the root and class prefix, and `Path(file_path)` collapses repeated and trailing separators and `.` components of an explicit path.
- Targets.ConfigAttr: only the five settings and `EOT` are modelled among the attributes of `EventLogConfig`; `update` and the attributes every class carries are left out, since `next_activity` reads none of them.
- LogConfig.GetGlobalConfig: configurations are immutable values here, so the detachment `dict.copy()` provides against aliasing holds trivially and is not a modelled property.
- Resource.ExampleRoles: the component labels are an input, chosen as a connected-components run would label the documented example ("UNK", R1 and R2 in separate components).
- Bucketing.Transform: the sklearn parameter validation is modelled only as its verdict (ValueError for a method outside the three).

## Findings

| source | as written | input that shows it | evidently intended | confidence | as-written member | corrected member |
|---|---|---|---|---|---|---|
| src/skpm/event_feature_extraction/meta.py:77-78 | `validate_methods_from_class(self.features, _DigraphFeatures)` passes the request as the class and the class as the request. The result is (name, method) pairs, from which the string "_frequency_matrix" is subtracted. | `features="all"` (the default): a string has no bound methods, so `features_` is empty and `_n_features_out` is 0 | select the requested public methods of `_DigraphFeatures` by name, without `_frequency_matrix`; "all" selects density, node_degree and nodes_in_cycles | not executed | Digraph.Fit | Digraph.FitIntended |
| src/skpm/feature_extraction/targets.py:20 | the fill value of the grouped shift is read as `elc.EOT`, where `elc` is the `EventLogConfig` class, whose attributes are the five settings and `update` | any log holding the case and activity columns: evaluating the arguments of `shift` raises AttributeError before anything is computed | fill the last event of each case with an end-of-trace token, as the older copy does with "<EOT>" | not executed | Targets.NextActivityAsWritten | Targets.NextActivity |
