# compgraph: a verified model of the row-level dataflow engine

ComputeGraph (`compgraph`) is a small engine for batch computations over streams of rows,
where a row is a Python dict from field names to values. A computation is a graph:

- a source node reads the rows of a named keyword argument of `run` (`ReadIterFactory`);
- every other node applies one operation to the streams of its parents:
  - **Map** hands each row to a mapper and concatenates what the mapper yields;
  - **Reduce** cuts the stream into maximal runs of rows with equal keys and hands each run,
    with the tuple of key names, to a reducer: FirstReducer, TopN, TermFrequency, Count or Sum;
  - **Sort** (ExternalSort) orders the stream by key;
  - **Join** walks the key runs of two key-sorted streams with two cursors and passes each
    pair of runs, or one run with an empty partner, to a joiner: Inner, Left, Right or Outer.

This project models that core in Dafny and proves what each operation yields:

| file | module | what it models |
|---|---|---|
| `rows.dfy` | `Rows` | values, rows as insertion-ordered dicts, the exceptions, Python's `<` on values and key lists, `itertools.groupby` |
| `sort.dfy` | `SortOps` | a stable sort by key, the reference definition of ExternalSort, also used for TopN's `sort(reverse=True)` |
| `map.dfy` | `MapOps` | `Map` and its eight mappers |
| `reduce.dfy` | `ReduceOps` | `Reduce` and its five reducers |
| `join.dfy` | `JoinOps` | `Join` (a class with its stored second input), its merge loop and the four joiners |
| `graph.dfy` | `Graphs` | `Graph` (a class), its builders and the recursive `run` |

Each operation has two parts:

- A function states what the operation yields. It works on finite sequences of rows, and
  returns `Result`, either the rows or the exception that aborts the stream.
- Where the source changes things step by step, a method does the same work with the
  source's loops, and its `ensures` ties its result to that function. These are Split,
  Product, Count, Sum, TopN, TermFrequency, Reduce, InnerJoiner, the Join loop and `run`.

Lemmas then state the properties of the functions.

Values are `Null` (Python's `None`, which `row.get(k)` also yields for a missing field),
`Num` (Python's int and float, as an exact real) and `Str`. Comparisons follow Python:
numbers and strings are each ordered among themselves. Any other comparison raises a
TypeError, and so does a comparison of key lists that reaches such a pair at their first
difference.

## Model

| member | source | states |
|---|---|---|
| Rows.Field | compgraph/operations/reduce.py:58 | `row[k]` is the field's value when present and a KeyError for `k` otherwise |
| Rows.Set | compgraph/operations/map.py:164 | `row[k] = v` changes only field `k`; an existing field keeps its place, a new one goes last |
| Rows.Pick | compgraph/operations/reduce.py:87 | `{c: row[c] for c in cols}` holds exactly the listed fields with the row's values, or raises the KeyError of the first missing one |
| Rows.PickNames | compgraph/operations/reduce.py:87 | a successful pick over distinct columns lists its fields in the order of the columns |
| Rows.Pop | compgraph/operations/join.py:74 | `row.pop(k)` removes field `k` and changes no other |
| Rows.KeyLt | compgraph/operations/join.py:47-50 | comparing two key lists raises only TypeError |
| Rows.KeyOf | compgraph/operations/reduce.py:27 | the group key has one entry per key name, `row.get(k)`, so None for a missing field |
| Rows.GroupBy | compgraph/operations/reduce.py:27 | groupby cuts the rows into non-empty maximal runs of equal key, each row carrying its run's key, and the runs concatenate back to the input in order |
| Rows.GroupKeyRow | compgraph/operations/reduce.py:27 | every run is non-empty and its key is the key of its first row, a row of the input |
| Rows.ValueLtTotal | compgraph/operations/reduce.py:59 | `<` on values succeeds exactly on two numbers or two strings, and is then a strict total order |
| Rows.ValueBelowTransitive | compgraph/operations/reduce.py:59 | `<` on values is transitive |
| Rows.KeyLtIrreflexive | compgraph/operations/join.py:43-47 | equal key lists compare as not smaller and never raise |
| Rows.KeyLtTrichotomy | compgraph/operations/join.py:47-52 | for two different keys of one width, either both comparisons raise or exactly one of `a < b` and `b < a` holds |
| Rows.KeyBelowTransitive | compgraph/operations/join.py:47-52 | `<` on key lists is transitive where it succeeds |
| Rows.KeyBelowAsymmetric | compgraph/operations/join.py:47-52 | `<` on key lists is irreflexive and asymmetric |
| Rows.FlatMapAppend | compgraph/operations/map.py:26-28 | feeding rows one after another concatenates outputs in input order, and the first failure hides the rest |
| Rows.FlatMapOk | compgraph/operations/map.py:26-28 | a stream comes out exactly when every row's call succeeds |
| Rows.FlatMapSingles | compgraph/operations/reduce.py:26-28 | when every call yields one row, the stream has one row per input, in order |
| SortOps.SortRowsCorrect | compgraph/graph.py:53-60 | ExternalSort yields a permutation of its input, sorted by key, stable for every key and unchanged when sorted again; it fails only with a TypeError |
| SortOps.SortWithPermutes | compgraph/operations/reduce.py:64 | the sort's output is a permutation of its input |
| SortOps.SortWithSorted | compgraph/operations/reduce.py:64 | under an asymmetric order the output is sorted, every neighbour pair comparable |
| SortOps.SortWithStable | compgraph/graph.py:53-60 | elements with equal keys keep their input order |
| SortOps.SortWithIdempotent | compgraph/graph.py:53-60 | sorting a sorted sequence gives it back |
| SortOps.SortWithSucceeds | compgraph/operations/reduce.py:64 | the sort succeeds when every pair of elements compares |
| SortOps.SortWithError | compgraph/operations/reduce.py:64 | a failing sort raises an exception that some comparison raises |
| SortOps.InsertShape | compgraph/operations/reduce.py:64 | one insertion step places the element after everything it does not go before |
| SortOps.InsertStable | compgraph/graph.py:53-60 | one insertion appends the element to those of its key and leaves other keys' elements in order |
| SortOps.KeyOrderAsymmetric | compgraph/graph.py:53-60 | key-list order is asymmetric, so the sort's properties apply to ExternalSort |
| MapOps.StripPunctuation | compgraph/operations/map.py:51 | the stripped text is no longer than the input and holds only non-punctuation characters of it |
| MapOps.StripPunctuationAppend | compgraph/operations/map.py:51 | stripping works piecewise, so kept characters stay in order |
| MapOps.StripPunctuationKeeps | compgraph/operations/map.py:51 | a text without punctuation is unchanged |
| MapOps.StripPunctuationIdempotent | compgraph/operations/map.py:51 | FilterPunctuation's text change is idempotent |
| MapOps.StripPunctuationLength | compgraph/operations/map.py:51 | exactly the punctuation characters are removed: the length drops by their count |
| MapOps.Lower | compgraph/operations/map.py:69 | lowering keeps the length and lowers each character on its own |
| MapOps.LowerIdempotent | compgraph/operations/map.py:69 | lowering is idempotent and leaves no upper-case ASCII letter |
| MapOps.TextMappersOneRow | compgraph/operations/map.py:50-70 | FilterPunctuation and LowerCase yield one row with the same field names, whose fields are the input's with the column's string stripped or lowered; a missing column raises KeyError, a non-string AttributeError |
| MapOps.SegmentsShape | compgraph/operations/map.py:87-100 | the text has one more segment than separator characters, and no segment holds a separator |
| MapOps.PiecesShape | compgraph/operations/map.py:87-100 | Split's pieces hold no separator; one per separator plus one when the last segment is non-empty; none for an empty text |
| MapOps.LastSegmentEmpty | compgraph/operations/map.py:96 | the last segment is empty exactly when the text is empty or ends with a separator |
| MapOps.SegmentsJoin | compgraph/operations/map.py:87-100 | joining the segments with the one-character separator gives the text back |
| MapOps.PiecesJoin | compgraph/operations/map.py:85-100 | joining Split's pieces gives the text back less one trailing separator |
| MapOps.LongSeparatorNeverSplits | compgraph/operations/map.py:85 | a separator of length other than one never matches a character, so a non-empty text is one piece |
| MapOps.SegmentsExtend | compgraph/operations/map.py:89-95 | one loop step: a separator closes the current segment, any other character extends it |
| MapOps.RowsWithPieces | compgraph/operations/map.py:91-99 | one row per piece, each the input row with only the column replaced |
| MapOps.SplitRow | compgraph/operations/map.py:87-100 | Split's index loop yields exactly the rows of the pieces, in order |
| MapOps.NumbersOf | compgraph/operations/map.py:115-117 | the numbers of the listed columns, in order |
| MapOps.ColumnProductOfNumbers | compgraph/operations/map.py:115-117 | the running product over number columns is the product of their numbers |
| MapOps.ProductOfNumbers | compgraph/operations/map.py:114-119 | Product yields one row that adds or sets only `result_column`, to the product |
| MapOps.ProductErrors | compgraph/operations/map.py:115 | an empty column list raises IndexError; a product that succeeds read only present columns |
| MapOps.ProductRow | compgraph/operations/map.py:114-119 | Product's accumulator loop yields exactly Product's row or its first error |
| MapOps.CallMapper | compgraph/operations/map.py:28 | each mapper's call, its loops included, yields the mapper's rows |
| MapOps.MapCall | compgraph/operations/map.py:26-28 | Map's loop yields the mapper's outputs concatenated row by row, or the first error |
| MapOps.MapRowsAppend | compgraph/operations/map.py:26-28 | Map over two streams back to back is the two Maps concatenated |
| MapOps.DummyMapperIdentity | compgraph/operations/map.py:37-38 | Map(DummyMapper) is the identity on the stream |
| MapOps.Kept | compgraph/operations/map.py:131-133 | the kept rows are rows of the input that satisfy the condition |
| MapOps.KeptAppend | compgraph/operations/map.py:131-133 | filtering works piecewise, so kept rows stay in order |
| MapOps.MapFilterKeeps | compgraph/operations/map.py:131-133 | Map(Filter(p)) yields exactly the subsequence of rows satisfying `p` |
| MapOps.ProjectFields | compgraph/operations/map.py:145-146 | Project yields one row whose fields are exactly the columns, with their values, or a KeyError for a missing column |
| MapOps.ApplyOneRow | compgraph/operations/map.py:160-165 | Apply yields one row: with a result column only that field is set to the return value; without one, the row as the function left it |
| ReduceOps.CountRow | compgraph/operations/reduce.py:113-120 | Count's row holds the group-key fields of the first row and `column` = number of rows, or raises the KeyError of a missing key field |
| ReduceOps.CountCall | compgraph/operations/reduce.py:113-120 | Count's loop yields exactly Count's row |
| ReduceOps.CountRun | compgraph/operations/reduce.py:113-120 | Count on a run yields one row with the run's key fields and its size |
| ReduceOps.ReduceCountRows | compgraph/operations/reduce.py:98-105 | Reduce with Count: one row per run, with the run's key fields and size; fails exactly when a run's first row lacks a key field |
| ReduceOps.CountRuns | compgraph/operations/reduce.py:26-28 | Count over consecutive runs: one counted row per run |
| ReduceOps.NumberIn | compgraph/operations/reduce.py:143 | `row_sum += row[column]` adds the number, or raises KeyError (missing) or TypeError (not a number) |
| ReduceOps.ColumnSumNext | compgraph/operations/reduce.py:142-143 | proof step: one more row of the running sum |
| ReduceOps.ColumnSumTotal | compgraph/operations/reduce.py:141-143 | the running sum succeeds exactly when every row holds a number, and is then their total; otherwise it fails on the first row that does not |
| ReduceOps.SumRowMeaning | compgraph/operations/reduce.py:139-146 | Sum's row holds the first row's key fields and the total of `column`; it succeeds exactly when all values are numbers and the key fields are present |
| ReduceOps.TotalPermutation | compgraph/operations/reduce.py:141-143 | a total over a permutation of the rows is the same total |
| ReduceOps.ColumnTotalPermutation | compgraph/operations/reduce.py:141-143 | reordering the rows keeps every value of the column a number and leaves their total unchanged |
| ReduceOps.SumOrderIndependent | compgraph/operations/reduce.py:139-146 | on a run of one key, Sum succeeds on the rows exactly when it succeeds on any reordering of them, with the same total and the same row |
| ReduceOps.SumCall | compgraph/operations/reduce.py:139-146 | Sum's accumulator loop yields exactly Sum's row |
| ReduceOps.SumRun | compgraph/operations/reduce.py:139-146 | Sum on a run yields one row with the run's key fields and total |
| ReduceOps.ReduceSumRows | compgraph/operations/reduce.py:124-131 | Reduce with Sum: one row per run, with the run's key fields and total; fails exactly when a run is not summable |
| ReduceOps.SumRuns | compgraph/operations/reduce.py:26-28 | Sum over consecutive runs: one summed row per run |
| ReduceOps.TfCount | compgraph/operations/reduce.py:80-89 | TermFrequency's counting loop computes the counts and first rows of the scan |
| ReduceOps.TfSharesCall | compgraph/operations/reduce.py:91-94 | the second loop sets each first row's share, count over total |
| ReduceOps.TermFrequencyCall | compgraph/operations/reduce.py:79-94 | TermFrequency's two loops yield exactly TermFrequency's rows |
| ReduceOps.TfRatios | compgraph/operations/reduce.py:91-94 | one output row per first row |
| ReduceOps.TfScanNext | compgraph/operations/reduce.py:83-89 | proof step: one more row of the counting loop |
| ReduceOps.TfScanMeaning | compgraph/operations/reduce.py:80-89 | the counting loop succeeds exactly when the rows are readable, and then counts every word exactly and records one first row per distinct word in first-seen order |
| ReduceOps.TfStepKeeps | compgraph/operations/reduce.py:83-89 | one counting step keeps the loop's invariant and fails only with a KeyError for the words column or a key field |
| ReduceOps.TfFirstRowsStep | compgraph/operations/reduce.py:86-89 | a step records a first row exactly for a word not seen before |
| ReduceOps.CountsStep | compgraph/operations/reduce.py:85 | `dct[w] += 1` keeps every count equal to the word's number of occurrences |
| ReduceOps.TfReadableAppend | compgraph/operations/reduce.py:85-88 | what one more row needs for the counting loop not to raise |
| ReduceOps.ValuesAppend | compgraph/operations/reduce.py:86 | a word joins the distinct words exactly on its first occurrence |
| ReduceOps.DistinctProps | compgraph/operations/reduce.py:86-89 | the distinct words list each word once, in first-seen order |
| ReduceOps.FirstIndex | compgraph/operations/reduce.py:86 | the index where a word first appears |
| ReduceOps.FirstIndexFirst | compgraph/operations/reduce.py:86 | no earlier row holds that word |
| ReduceOps.TfRatiosRow | compgraph/operations/reduce.py:91-93 | the k-th output row is the k-th distinct word's first row with its share |
| ReduceOps.TermFrequencyCorrect | compgraph/operations/reduce.py:79-94 | TermFrequency yields one row per distinct word, in first-seen order: that row's key fields, the word, and occurrences / group size; otherwise a KeyError |
| ReduceOps.ColumnValues | compgraph/operations/reduce.py:63 | the column values of the rows, in order |
| ReduceOps.MinValueLeast | compgraph/operations/reduce.py:63 | `min` over values of one kind succeeds and yields one of them that none is below |
| ReduceOps.RemoveFirstWithShape | compgraph/operations/reduce.py:61 | the remove drops the first row holding the minimum and nothing else |
| ReduceOps.RemoveFirstWithSucceeds | compgraph/operations/reduce.py:61 | the remove succeeds when a kept row holds the value |
| ReduceOps.TopNScanNext | compgraph/operations/reduce.py:56-63 | proof step: one more row of TopN's loop |
| ReduceOps.TopNAddKeeps | compgraph/operations/reduce.py:59-63 | adding a row while fewer than n are kept keeps the invariant |
| ReduceOps.TopNRemoveMin | compgraph/operations/reduce.py:61 | removing a row holding the minimum leaves kept rows none below it |
| ReduceOps.TopNReplaceKeeps | compgraph/operations/reduce.py:59-63 | a row above the minimum displaces a row holding it, and the invariant holds |
| ReduceOps.ReplacedMin | compgraph/operations/reduce.py:63 | the new minimum after a replacement is not below the old one |
| ReduceOps.TopNReplaceDiscards | compgraph/operations/reduce.py:61 | after a replacement no left-out row is above the new minimum |
| ReduceOps.TopNSkipKeeps | compgraph/operations/reduce.py:59 | a row not above the minimum while n are kept is left out and the invariant holds |
| ReduceOps.TopNStepKeeps | compgraph/operations/reduce.py:57-63 | one loop step keeps the invariant; it fails exactly on a missing column (KeyError) or a value of another kind (TypeError) |
| ReduceOps.UniformColumnAppend | compgraph/operations/reduce.py:58-59 | what one more row needs for every comparison to succeed |
| ReduceOps.TopNScanKeeps | compgraph/operations/reduce.py:56-63 | TopN's loop succeeds exactly when the column is present with values of one orderable kind, and ends in the invariant |
| ReduceOps.DescendingAsymmetric | compgraph/operations/reduce.py:64 | TopN's descending order is asymmetric |
| ReduceOps.KeptComparable | compgraph/operations/reduce.py:64 | any two kept rows compare without raising |
| ReduceOps.LeftOutNotAbove | compgraph/operations/reduce.py:59-63 | no row left out is above a kept row |
| ReduceOps.TopNSortKept | compgraph/operations/reduce.py:64-65 | sorting the kept rows succeeds and yields them largest first |
| ReduceOps.TopNCorrect | compgraph/operations/reduce.py:53-65 | for n ≥ 1 TopN yields min(n, group size) of the group's rows, largest first, none left out above one kept; or a KeyError or TypeError exactly when the column is missing or mixed |
| ReduceOps.TopNCall | compgraph/operations/reduce.py:53-65 | TopN's loop, remove and sort yield exactly TopN's rows |
| ReduceOps.TopNZeroRaises | compgraph/operations/reduce.py:59-61 | with n = 0 a second, larger row makes the list index raise IndexError |
| ReduceOps.CallReducer | compgraph/operations/reduce.py:28 | each reducer's call, its loops included, yields the reducer's rows |
| ReduceOps.ReduceStep | compgraph/operations/reduce.py:28 | one run's reducer output follows those of the runs before |
| ReduceOps.ReduceGroupsCall | compgraph/operations/reduce.py:27-28 | the loop over runs concatenates the reducer's outputs run by run |
| ReduceOps.ReduceCall | compgraph/operations/reduce.py:26-28 | Reduce yields the reducer's outputs over groupby's runs, in order |
| ReduceOps.ReduceFirstIdentity | compgraph/operations/reduce.py:37-39 | Reduce with FirstReducer is the identity on the stream |
| ReduceOps.FlatMapGroupRows | compgraph/operations/reduce.py:37-39 | passing every run through gives the runs' rows concatenated |
| ReduceOps.OneRowPerGroup | compgraph/operations/reduce.py:119-120 | Count and Sum yield exactly one row per run |
| ReduceOps.EmptyPick | compgraph/operations/reduce.py:118 | a key pick is empty only for an empty key tuple |
| JoinOps.MergeRowFields | compgraph/operations/join.py:69-76 | the merged row: a shared non-key field appears as `f+suffix_a` (A's value) and `f+suffix_b` (B's value) and not as `f`; A's other fields copied; B-only fields kept; nothing else |
| JoinOps.MergedAfterAll | compgraph/operations/join.py:70-76 | the invariant after every field of A was visited gives the merged row's fields |
| JoinOps.MergeFieldsMeaning | compgraph/operations/join.py:70-76 | the loop over a prefix of A's fields yields the merged state of that prefix |
| JoinOps.MergeFieldsStep | compgraph/operations/join.py:70-76 | one more field of A in the loop |
| JoinOps.MergeFieldKeeps | compgraph/operations/join.py:71-76 | one turn of the loop over A's fields keeps the merge invariant |
| JoinOps.MergeOtherKeeps | compgraph/operations/join.py:75-76 | a non-shared field of A is written over |
| JoinOps.SharedMovedKeeps | compgraph/operations/join.py:72-74 | a shared field moves to its two suffixed names |
| JoinOps.MergeRowCall | compgraph/operations/join.py:69-76 | the deepcopy-and-assign loop yields exactly the merged row, and its `pop` never misses |
| JoinOps.MergeAll | compgraph/operations/join.py:68-77 | one row of A yields one merged row per row of B, in order |
| JoinOps.Blocks | compgraph/operations/join.py:67-77 | block i is what the i-th row of A yields |
| JoinOps.ConcatWidth | compgraph/operations/join.py:67-77 | blocks of width w concatenate to len(blocks)·w rows |
| JoinOps.InnerJoinShape | compgraph/operations/join.py:64-77 | InnerJoiner yields len(A)·len(B) rows, A in the outer loop and B in the inner; none when either side is empty |
| JoinOps.MergeAllCall | compgraph/operations/join.py:68-77 | the inner loop yields exactly the merged rows of one row of A |
| JoinOps.InnerJoinCall | compgraph/operations/join.py:64-77 | the two nested loops yield exactly InnerJoiner's rows |
| JoinOps.JoinerRowsShape | compgraph/operations/join.py:86-133 | Left/Outer pass A through when B is empty; Right/Outer pass B through when A is empty; otherwise Inner/Left join A with B and Right/Outer B with A |
| JoinOps.CallJoiner | compgraph/operations/join.py:86-133 | every joiner's call yields the joiner's rows |
| JoinOps.LoneLeftRows | compgraph/operations/join.py:105-110 | a run without partner: its rows for Left and Outer, nothing for Inner and Right |
| JoinOps.StepsRowsAppend | compgraph/operations/join.py:44-51 | proof step: the joiner's rows for each turn follow those of earlier turns |
| JoinOps.CallStep | compgraph/operations/join.py:44-51 | one turn calls the joiner on its two runs, one possibly empty |
| JoinOps.StepsGroupsCons | compgraph/operations/join.py:42-52 | proof step: the runs of a turn come before those of later turns |
| JoinOps.MergeStepsCover | compgraph/operations/join.py:38-52 | every run of each input reaches the joiner exactly once, in input order; runs go together only with equal keys |
| JoinOps.BelowAll | compgraph/operations/join.py:47-52 | a key below the first of ascending runs matches none of them |
| JoinOps.MatchedCons | compgraph/operations/join.py:42-52 | one more matched turn in front of matched turns |
| JoinOps.MergeStepsMatch | compgraph/operations/join.py:42-52 | on key-sorted inputs a run goes alone exactly when the other input has no run with its key |
| JoinOps.MergeStepsSucceeds | compgraph/operations/join.py:42-52 | the loop never raises when every key of A's runs compares with every key of B's runs |
| JoinOps.SortedGroupsAscending | compgraph/operations/join.py:38-40 | groupby over a stream sorted by key yields runs with strictly ascending keys |
| JoinOps.SortedRunsAscending | compgraph/graph.py:53-60 | ExternalSort's output holds the same rows, and its runs have strictly ascending keys |
| JoinOps.SortedRunsMatch | compgraph/operations/join.py:42-52 | on ascending runs whose keys compare across the inputs the loop succeeds, hands every run to the joiner once in order, pairs runs only with equal keys, and sends a run alone exactly when the other input has no run with its key |
| JoinOps.SortMergeJoin | compgraph/graph.py:53-71 | Join after ExternalSort of both inputs, with keys that compare across the inputs: the loop does not raise, yields the joiner's rows over its turns, and every run meets the run of equal key from the other input |
| JoinOps.OuterLoneSteps | compgraph/operations/join.py:86-133 | OuterJoiner over turns that never pair two runs yields exactly the rows of all those runs |
| JoinOps.OuterDisjoint | compgraph/operations/join.py:35-96 | OuterJoiner on inputs that share no key, with keys that compare across them, succeeds and yields exactly the rows of both inputs, unmerged |
| JoinOps.SinglePairJoiners | compgraph/operations/join.py:42-46 | one row on each side with equal keys: Inner and Left yield the merge of A's row with B's, Outer the merge of B's row with A's |
| JoinOps.OuterSwapsSuffixes | compgraph/operations/join.py:96 | a concrete input on which Left's row is not among Outer's rows: A's value of a shared field gets `_1` in Left and B's value gets it in Outer |
| JoinOps.IntendedJoinRowsNested | compgraph/operations/join.py:80-133 | with joiners that behave as Inner whenever both runs are present, the four joins succeed together and Inner ⊆ Left ⊆ Outer and Inner ⊆ Right ⊆ Outer as multisets of rows |
| JoinOps.InnerWithinLeft | compgraph/operations/join.py:105-114 | Join with InnerJoiner or LeftJoiner as written equals the corrected Join, so the two succeed together and Inner's rows are among Left's on every input |
| JoinOps.LeftSteps | compgraph/operations/join.py:47-49 | the turns with no right input: each left run alone |
| JoinOps.MergeStepsAlone | compgraph/operations/join.py:47-49 | with an empty right input each left run goes alone and no key is compared |
| JoinOps.LeftStepsSnoc | compgraph/operations/join.py:47-49 | proof step: one more lone left run |
| JoinOps.LeftStepsRows | compgraph/operations/join.py:47-49 | lone left runs give all their rows for Left and Outer, none for Inner and Right |
| JoinOps.JoinWithoutOther | compgraph/operations/join.py:33-52 | with an empty second input Inner and Right yield nothing and Left and Outer yield the first input unchanged |
| JoinOps.UnfoldBoth | compgraph/operations/join.py:43-46 | proof step: equal current keys: both runs go to the joiner and both cursors advance |
| JoinOps.UnfoldLeft | compgraph/operations/join.py:47-49 | proof step: a smaller left key, or no right run: the left run goes alone and only the left cursor advances |
| JoinOps.UnfoldRight | compgraph/operations/join.py:50-52 | proof step: a smaller right key, or no left run: the right run goes alone and only the right cursor advances |
| JoinOps.UnfoldFails | compgraph/operations/join.py:47-50 | proof step: a key comparison that raises aborts the loop with a TypeError |
| JoinOps.PrefixedNone | compgraph/operations/join.py:42 | proof step: no turns taken: the loop's outcome is that of all turns |
| JoinOps.PrefixedStep | compgraph/operations/join.py:42-52 | proof step: a turn taken moves into the prefix |
| JoinOps.MergeTurn | compgraph/operations/join.py:43-52 | one turn picks the step the loop takes and advances the cursors, or raises the comparison's TypeError |
| JoinOps.MergeJoinCall | compgraph/operations/join.py:42-52 | the two-cursor loop yields the joiner's rows over all turns, or the TypeError that stops it |
| JoinOps.Join.constructor | compgraph/operations/join.py:30-33 | a new Join holds its joiner and keys, with an empty stored second input |
| JoinOps.Join.Call | compgraph/operations/join.py:35-52 | a second input in the arguments replaces the stored one; the output is the merge join of the two, and the stored input is drained |
| Graphs.ReadSource | compgraph/operations/base.py:40-42 | a source node yields the named source's rows, or a KeyError when the name is missing |
| Graphs.ListedCovered | compgraph/graph.py:77 | each parent, its ancestors and its Joins are among those of the parent list |
| Graphs.AncestorOrigin | compgraph/graph.py:77 | every ancestor is reached through one of the parents |
| Graphs.EvalsAt | compgraph/graph.py:77 | the parents' streams, one per parent, each the parent's own |
| Graphs.ApplyCall | compgraph/graph.py:78 | a one-input operation's call yields Map's, Reduce's or Sort's rows |
| Graphs.Graph.ReadsNeedSources | compgraph/operations/base.py:41 | a stream only comes out when every source node of the graph names a keyword argument |
| Graphs.Graph.ParentStreamOk | compgraph/graph.py:76-78 | a node's stream comes out only when each parent's does |
| Graphs.Graph.Leaf | compgraph/graph.py:9-24 | a new source node without parents or input |
| Graphs.Graph.Extend | compgraph/graph.py:34-60 | a new node with one parent and the given operation |
| Graphs.Graph.Joined | compgraph/graph.py:62-71 | a new join node with parents [left, right] |
| Graphs.Graph.GraphFromIter | compgraph/graph.py:16-24 | graph_from_iter builds a parentless node whose stream is exactly the named source's rows |
| Graphs.Graph.Map | compgraph/graph.py:34-41 | map builds a fresh node whose one parent is the receiver |
| Graphs.Graph.Reduce | compgraph/graph.py:43-51 | reduce builds a fresh node whose one parent is the receiver |
| Graphs.Graph.Sort | compgraph/graph.py:53-60 | sort builds a fresh node whose one parent is the receiver |
| Graphs.Graph.Join | compgraph/graph.py:62-71 | join builds a fresh node with a new Join and parents [receiver, other], so the receiver's stream is the left input |
| Graphs.Graph.RunParents | compgraph/graph.py:77 | every parent runs with the same sources, in order, and its stream is its evaluation |
| Graphs.Graph.Run | compgraph/graph.py:73-80 | run records the sources in every node it reaches, runs the parents in order and applies the operation to their streams; a successful run leaves every Join drained |
| Graphs.Graph.RunTwice | tests/test_graph.py:30-34 | running a graph twice on equal fresh sources gives the same stream, whatever Join state the first run leaves |

Rows marked "proof step" state one turn of a loop or one case of a definition; the rows
around them state what the whole loop or operation yields.

## Left out

- Laziness: streams are finite sequences, and an exception aborts the whole stream. Rows
  yielded before the exception are not modelled.
- Exception order: the model evaluates a node's parents one after another, so when both
  inputs of a join would raise, the first parent's exception is reported. The interleaved
  generators of the source may surface the other one first.
- Numbers: Python's int and float are one exact `Num(real)` value. Float rounding, the
  int/float distinction of results (Count's int, TermFrequency's float), bools and values
  other than None, numbers and strings are not modelled.
- Product: only numbers are multiplied. Python's `str * int` repetition is a TypeError in
  the model.
- LowerCase: only ASCII letters are lowered; Unicode case mapping is not modelled.
- Filter and Apply: the callables are total Dafny functions and cannot raise. Apply's
  in-place effect on the row is modelled by the function returning the changed row.
- deepcopy and aliasing: rows are values, so copies and in-place updates coincide. Sharing
  of a row object between streams is not modelled. In particular ReadIterFactory hands out
  the caller's own dicts, and Apply and Product write into them, so a second run over the
  same dicts can see the first run's writes; the model's sources are fresh on every run.
- ExternalSort: compgraph/operations/external_sort.py is not part of this model. It is
  modelled by a stable insertion sort by key, which is also TopN's `list.sort`. Which pairs
  a sort compares, and so whether a partly incomparable input raises, follows insertion
  sort rather than Timsort.
- Read, ReadTxtToCSV and Graph.rows_from_file: file I/O and pandas.
- compgraph/algorithms.py, examples/ and the command-line wrappers: compositions of the core
  operations with I/O, numpy and plotting.
- Graph.join_parent and Joiner.same_col: the source sets them but never reads them.
- Python generator state: a Join called with no second argument reads its stored `join_iter`,
  which a previous call drained. The model keeps the stored rows and empties them after
  every call. It does not model a call that raises part-way through the stored input.
- JoinOps.MergeRowFields: the field-by-field description assumes that the suffixed names of
  shared fields collide with no other field (NoClash). MergeRow and MergeRowCall follow the
  loop in every case, collisions included.
- ReduceOps.TopNCorrect: proved for n ≥ 1 only. For n = 0 the source raises IndexError as
  soon as a row above the first arrives (TopNZeroRaises). TopNRows follows the loop for
  every n, but nothing is proved about a negative n.
- Graphs.Graph.Run: a node reached twice in one run (a diamond graph) runs twice, as in the
  source. The contract states the final recorded inputs and Join states, not the
  intermediate ones.
- ReduceOps.SumOrderIndependent: numbers are exact, so the total does not depend on the
  order of the rows. With Python's float addition the source's total can differ in its last
  bits from one order to another.

## Findings

| source | as written | input that shows it | evidently intended | confidence | as-written member | corrected member |
|---|---|---|---|---|---|---|
| compgraph/operations/join.py:96 | OuterJoiner delegates to RightJoiner, which calls InnerJoiner on (B, A) with the suffixes unchanged (join.py:133), so B's value of a shared field is named with `suffix_a` | keys `["id"]`, A = `[{"id": 1, "x": "L"}]`, B = `[{"id": 1, "x": "R"}]`: Left yields `x_1 = "L"`, Outer yields `x_1 = "R"`, so Inner(A, B) ⊆ Left(A, B) ⊆ Outer(A, B) fails | Right and Outer behave as Inner when both runs are present, A's values under `suffix_a`, so Inner ⊆ Left ⊆ Outer and Inner ⊆ Right ⊆ Outer | medium, not executed | JoinOps.OuterSwapsSuffixes | JoinOps.IntendedJoinRowsNested |

JoinOps.JoinRows and the Join class follow the source as written; JoinOps.IntendedJoinRows is
the corrected definition, with the same merge loop and the intended joiners.
