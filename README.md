# matchtools in Dafny

A verified model of the core of matchtools, a Java library for matching two
lists of labels (column headers, entity names and the like). matchtools works
in three steps:

- It builds a dense similarity matrix: one row per label of list A, one
  column per label of list B, one matrix per string metric. The matrices are
  then folded into one by pairwise averaging.
- It prunes that matrix in place with selection operators: threshold, row and
  column maxima, greedy one-to-one selection, and the noise filter.
- It reads the matches and quality figures back out: the non-zero cells, the
  label mapping, coverage and monogamy.

The library also looks up a needle in a table of strings (a hit matrix), and
it normalises label arrays.

The model keeps the library's own structure:

- `Matrices.SimMatrix` is a class over an `array2<real>`. Its selection and
  aggregation methods overwrite the cells in place, loop by loop, as Colt's
  `assign` does.
- `Hits.HitMatrix` holds a `SimMatrix` (the Java subclass relation becomes
  composition) together with the needle and the haystack table.
- `Prepared.PreparedString` is a class whose constructor fills a `weights`
  array and adds up `weightSum`.
- `Tools.MatchTools` is the facade. It holds one instance of every metric and
  provides `doMatch`, `defaultMapping`, `locate` and `cleanStringArray`.
- `StringMetrics` holds the string metrics. The word metrics are methods with
  the source's nested token loops.
- `SetMetrics` holds the two Jaccard similarities over Dafny `set`s.
- `Candidates` holds `MatchingIndices` and its comparator.

Every method is proved against a specification over values:

- Matrices are specified as a `Grid` (a sequence of rows), through the ghost
  snapshot `Snapshots.GridOf`.
- Lists of cells are `seq<MatchingIndices>`.
- Labels are `Prepared.Label`.

The properties the library relies on are proved about those specifications
(modules `Grids`, `Greedy`, `Words`, `Common`). Examples are thresholding
being idempotent, the greedy selection being one-to-one, coverage and
monogamy lying in [0, 1], the fold of averages, and the round trip of the
space split.

Foreign code becomes parameters, and nothing is assumed about it beyond what
the Java code itself compares:

- the three Lucene distances (`StringMetrics.Lucene`);
- the token weighter (`string -> real`);
- Commons-Math's standard deviation (`seq<real> -> real`);
- `String.toLowerCase` (`string -> string`).

## Model

| member | source | states |
|---|---|---|
| Common.Max | src/de/tudresden/matchtools/SimMatrix.java:385-392 | `Math.max` on doubles: the result is at least both arguments and is one of them |
| Common.Min | src/de/tudresden/matchtools/similarities/StringSimilarities.java:124 | `Math.min` on doubles: the result is at most both arguments and is one of them |
| Common.MaxNat | src/de/tudresden/matchtools/similarities/StringSimilarities.java:66 | `max` on token counts: at least both and one of them |
| Common.MinNat | src/de/tudresden/matchtools/SimMatrix.java:157 | `min(m, n)` on the matrix shape: at most both and one of them |
| Words.PiecesJoin | src/de/tudresden/matchtools/datastructures/PreparedString.java:17 | cutting a string at every space gives pieces that contain no space and that, joined with one space between each two, give back the string |
| Words.DropTrailingEmpty | src/de/tudresden/matchtools/datastructures/PreparedString.java:17 | dropping trailing empty pieces keeps a prefix of the pieces that ends in a non-empty piece, and drops only empty pieces |
| Words.SplitTokens | src/de/tudresden/matchtools/datastructures/PreparedString.java:17 | no token of Java `split(" ")` contains a space; when the string contains a space, the tokens are its pieces with the trailing empty ones removed |
| Words.SplitEmptyIffBlank | src/de/tudresden/matchtools/datastructures/PreparedString.java:17 | `split(" ")` yields no token exactly when the string is made only of spaces (at least one of them); `""` gives one empty token |
| Words.Trim | src/de/tudresden/matchtools/MatchTools.java:164 | Java `trim`: the result is the input with only characters at or below `' '` removed, from the front and from the back, and it is empty or starts and ends with a character above `' '` |
| Words.TrimIdempotent | src/de/tudresden/matchtools/MatchTools.java:164 | trimming twice is trimming once |
| Prepared.Weigh | src/de/tudresden/matchtools/datastructures/PreparedString.java:20-25 | one weight per token, the j-th being the weighter applied to the j-th token |
| Prepared.PreparedString.constructor | src/de/tudresden/matchtools/datastructures/PreparedString.java:13-26 | `string` is s and `words` is the space split of s; `weights` is a fresh array holding one weight per token, each the weighter applied to that token; `weightSum` is their sum (`Valid`) |
| Candidates.MakeIndices | src/de/tudresden/matchtools/datastructures/MatchingIndices.java:8-12 | the constructor stores (a, b, c) = (i, j, d) |
| Candidates.CompareTo | src/de/tudresden/matchtools/datastructures/MatchingIndices.java:15-17 | `compareTo` is negative, zero or positive exactly when this score is below, equal to or above the other score |
| Candidates.CompareIgnoresIndices | src/de/tudresden/matchtools/datastructures/MatchingIndices.java:16 | candidates with equal scores compare equal both ways, whatever their indices |
| Candidates.CompareAntisymmetric | src/de/tudresden/matchtools/datastructures/MatchingIndices.java:16 | swapping the operands turns negative into positive and keeps zero |
| Candidates.CompareTransitive | src/de/tudresden/matchtools/datastructures/MatchingIndices.java:16 | "at most" by `compareTo` is transitive, so the comparator is a total preorder on scores |
| Candidates.Insert | src/de/tudresden/matchtools/SimMatrix.java:161 | inserting one candidate into a list sorted by descending score keeps it sorted, and adds exactly that candidate (multiset) |
| Candidates.SortDesc | src/de/tudresden/matchtools/SimMatrix.java:161 | `Collections.sort(…, reverseOrder())`: the result is sorted by descending score and is a permutation of the input |
| StringMetrics.FirstNear | src/de/tudresden/matchtools/similarities/StringSimilarities.java:58-64 | the index of the first t-token whose Levenshtein value exceeds the threshold, or the number of t-tokens when none does; no earlier t-token qualifies |
| StringMetrics.NearCount | src/de/tudresden/matchtools/similarities/StringSimilarities.java:57-65 | the number of s-tokens with a near match is at most the number of s-tokens |
| StringMetrics.NearCountAll | src/de/tudresden/matchtools/similarities/StringSimilarities.java:57-65 | when every s-token has a near match, all s-tokens are counted |
| StringMetrics.FindNear | src/de/tudresden/matchtools/similarities/StringSimilarities.java:59-64 | the inner loop with `continue outer`: the first near-matching t-token, or none, and no earlier t-token matches |
| StringMetrics.CountNear | src/de/tudresden/matchtools/similarities/StringSimilarities.java:57-65 | the labelled loop counts each s-token at most once, at its first near match (equals `NearCount`) |
| StringMetrics.ByWordScore | src/de/tudresden/matchtools/similarities/StringSimilarities.java:66 | matched s-tokens over the larger token count lies in [0, 1] |
| StringMetrics.ByWordLevenshteinSimilarity | src/de/tudresden/matchtools/similarities/StringSimilarities.java:53-67 | `ByWordLevenshtein.similarity(String, String)` is the number of s-tokens with a near match (threshold 0.8) over the larger token count; both labels being blank is the 0/0 case |
| StringMetrics.WeightedScore | src/de/tudresden/matchtools/similarities/StringSimilarities.java:95-125 | the weighted score of two token lists is at most 1 (the `min` cap) |
| StringMetrics.NewWeightedByWordLevenshtein | src/de/tudresden/matchtools/similarities/StringSimilarities.java:77-81 | the one-argument constructor keeps the weighter and sets the threshold to 0.8 |
| StringMetrics.NewWeightedByWordLevenshteinWithThreshold | src/de/tudresden/matchtools/similarities/StringSimilarities.java:83-87 | the two-argument constructor keeps the weighter and the given threshold |
| StringMetrics.SumWeights | src/de/tudresden/matchtools/similarities/StringSimilarities.java:101-107 | the two summing loops give the sum of all weights of both labels |
| StringMetrics.WeightedSimilarity | src/de/tudresden/matchtools/similarities/StringSimilarities.java:95-125 | each matched s-token i adds (w_s[i] + w_t[j]) / total, j being its first qualifying t-token; t-tokens are never consumed; the result is that sum capped at 1 |
| StringMetrics.PreparePair | src/de/tudresden/matchtools/similarities/StringSimilarities.java:91 | both labels are prepared as the `PreparedString` constructor does: split into tokens and weighed by the metric's weighter |
| StringMetrics.WeightedSimilarityOfStrings | src/de/tudresden/matchtools/similarities/StringSimilarities.java:89-92 | the String overload equals the weighted score of the freshly split and weighed labels |
| StringMetrics.WeightedCanExceedOne | src/de/tudresden/matchtools/similarities/StringSimilarities.java:110-124 | without the cap the matching can exceed 1: two s-tokens matching the same t-token give 4/3, because t-tokens are not consumed |
| StringMetrics.WeightedSelfSimilarity | src/de/tudresden/matchtools/similarities/StringSimilarities.java:110-124 | a token list compared with itself, with every token matching itself first, has matching exactly 1 |
| StringMetrics.AFocusedScore | src/de/tudresden/matchtools/similarities/StringSimilarities.java:158-159 | 0.8·m/len(s) + 0.2·m/max(len(s), len(t)) lies in [0, 1], and equals 1 exactly when every s-token matches and len(s) >= len(t) |
| StringMetrics.AFocusedSimilarityOfWords | src/de/tudresden/matchtools/similarities/StringSimilarities.java:148-160 | `_similarity` counts near matches with the literal threshold 0.8 (its `levenshteinThreshold` field is ignored) and returns the focused score |
| StringMetrics.AFocusedFullMatch | src/de/tudresden/matchtools/similarities/StringSimilarities.java:148-157 | when every s-token has a near match, the count is the number of s-tokens (so the score is 1 when len(s) >= len(t)) |
| StringMetrics.AFocusedSimilarity | src/de/tudresden/matchtools/similarities/StringSimilarities.java:136-141 | the String overload scores the space-split labels |
| StringMetrics.AFocusedSimilarityPrepared | src/de/tudresden/matchtools/similarities/StringSimilarities.java:142-146 | the PreparedString overload scores the prepared tokens |
| StringMetrics.PositionBound | src/de/tudresden/matchtools/similarities/StringSimilarities.java:187-207 | from s-token i on, the position scan adds between 0 and (remaining s-weights + all current t-weights) / total: each weight is credited at most once because it is zeroed when matched |
| StringMetrics.PositionAtMostOne | src/de/tudresden/matchtools/similarities/StringSimilarities.java:187-207 | with non-negative weights, the uncapped matching of the position metric lies in [0, 1] |
| StringMetrics.PositionScore | src/de/tudresden/matchtools/similarities/StringSimilarities.java:174-207 | the position score of two token lists is at most 1 |
| StringMetrics.NewWeightedByWordAndPositionLevenshtein | src/de/tudresden/matchtools/similarities/StringSimilarities.java:165-167 | the constructor keeps the weighter and the default threshold 0.8 |
| StringMetrics.CopyOf | src/de/tudresden/matchtools/similarities/StringSimilarities.java:177-178 | `Arrays.copyOf`: a fresh array with the same contents |
| StringMetrics.PositionSimilarity | src/de/tudresden/matchtools/similarities/StringSimilarities.java:174-208 | the scan over the weight copies: a matched pair credits its current weights, halved when i != j, then zeroes both; the result is that sum capped at 1; the caller's `weights` arrays are not modified |
| StringMetrics.PositionStep | src/de/tudresden/matchtools/similarities/StringSimilarities.java:188-205 | one outer iteration: what it adds, plus what the rest of the scan adds on the updated copies, is what the scan added from token i on before it |
| StringMetrics.PositionSimilarityOfStrings | src/de/tudresden/matchtools/similarities/StringSimilarities.java:169-172 | the String overload equals the position score of the freshly split and weighed labels |
| StringMetrics.Similarity | src/de/tudresden/matchtools/similarities/StringSimilarities.java:16-210 | `similarity(String, String)` of every metric; the two count-based word metrics lie in [0, 1], and the two weighted ones are at most 1 |
| StringMetrics.LabelSimilarity | src/de/tudresden/matchtools/similarities/StringSimilarities.java:22-70 | the PreparedString overloads: Levenshtein, NGram, Jaro and ByWordLevenshtein apply the String overload to `.string`; AFocusedByWordLevenshtein lies in [0, 1]; the weighted metrics are at most 1 |
| StringMetrics.PreparedAgreesWithText | src/de/tudresden/matchtools/similarities/StringSimilarities.java:89-92 | for a label prepared with the metric's own weighter, the PreparedString overload and the String overload give the same score, for every metric |
| StringMetrics.WeightedAgrees | src/de/tudresden/matchtools/similarities/StringSimilarities.java:89-95 | the weighted case of the agreement: the PreparedString score of prepared labels is the String score |
| StringMetrics.PositionAgrees | src/de/tudresden/matchtools/similarities/StringSimilarities.java:169-174 | the position case of the agreement |
| StringMetrics.WeightedScoreNonNegative | src/de/tudresden/matchtools/similarities/StringSimilarities.java:108-124 | with a non-negative weighter, the weighted score is at least 0 |
| StringMetrics.PositionScoreNonNegative | src/de/tudresden/matchtools/similarities/StringSimilarities.java:187-207 | with a non-negative weighter, the position score is at least 0 |
| StringMetrics.WordMetricInUnitInterval | src/de/tudresden/matchtools/similarities/StringSimilarities.java:49-208 | every word metric (with a non-negative weighter for the weighted ones) lies in [0, 1] |
| StringMetrics.Compute | src/de/tudresden/matchtools/similarities/StringSimilarities.java:16-210 | `sd.similarity(String, String)`: the dispatch to each metric's method computes `Similarity` |
| StringMetrics.ComputePrepared | src/de/tudresden/matchtools/similarities/StringSimilarities.java:22-208 | `sd.similarity(PreparedString, PreparedString)`: the dispatch computes the PreparedString score of the labels' current contents |
| SetMetrics.GoogleJaccard | src/de/tudresden/matchtools/similarities/SetSimilarities.java:31-45 | `GoogleJaccard.similarity` is the size of the intersection over the size of the union; the swap does not change either |
| SetMetrics.Jaccard | src/de/tudresden/matchtools/similarities/SetSimilarities.java:11-26 | `Jaccard.similarity` (common count over union size) equals `GoogleJaccard` |
| SetMetrics.CountCommon | src/de/tudresden/matchtools/similarities/SetSimilarities.java:16-19 | the first loop counts the elements of a that are in b: the size of the intersection |
| SetMetrics.CountUnion | src/de/tudresden/matchtools/similarities/SetSimilarities.java:14-23 | the second loop starts at len(a) and adds the elements of b missing from a: the size of the union |
| SetMetrics.UnionCard | src/de/tudresden/matchtools/similarities/SetSimilarities.java:14-23 | the size of a ∪ b is the size of a plus the size of b − a |
| SetMetrics.JaccardBounds | src/de/tudresden/matchtools/similarities/SetSimilarities.java:11-26 | the similarity lies in [0, 1] when a ∪ b is non-empty |
| SetMetrics.JaccardExtremes | src/de/tudresden/matchtools/similarities/SetSimilarities.java:16-25 | identical non-empty sets give 1, disjoint sets give 0 |
| SetMetrics.GoogleJaccardSymmetric | src/de/tudresden/matchtools/similarities/SetSimilarities.java:31-45 | `GoogleJaccard` is symmetric in its arguments |
| Grids.Threshold | src/de/tudresden/matchtools/SimMatrix.java:99-117 | `selectThreshold` on values keeps the shape |
| Grids.ThresholdCells | src/de/tudresden/matchtools/SimMatrix.java:106-117 | a cell at or above the threshold is unchanged, any other becomes 0 |
| Grids.ThresholdIdempotent | src/de/tudresden/matchtools/SimMatrix.java:115-117 | thresholding twice at the same level is thresholding once |
| Grids.SeqMax | src/de/tudresden/matchtools/SimMatrix.java:380 | `getMaxLocation()[0]` of a row: at least every entry and reached by one |
| Grids.RowMaxes | src/de/tudresden/matchtools/SimMatrix.java:377-383 | `maxima(M)`: the maximum of every row |
| Grids.ColumnMaxes | src/de/tudresden/matchtools/SimMatrix.java:121 | `maxima(M.viewDice()).viewDice()`: the maximum of every column |
| Grids.SelectMaxGrid | src/de/tudresden/matchtools/SimMatrix.java:140-146 | `selectMaxDelta` on values keeps the shape |
| Grids.SelectMaxCell | src/de/tudresden/matchtools/SimMatrix.java:385-404 | one cell: kept when it is at least max(rowMax − delta, colMax − delta), else 0 |
| Grids.SelectMaxKeepsIff | src/de/tudresden/matchtools/SimMatrix.java:119-150 | a cell is kept exactly when it is at least its row maximum minus delta and at least its column maximum minus delta (both, not either), otherwise it becomes 0 |
| Grids.SelectMaxSurvivorsAreMaxima | src/de/tudresden/matchtools/SimMatrix.java:119-124 | a cell that survives `selectMax` is the maximum of its row and of its column |
| Grids.AvgGrid | src/de/tudresden/matchtools/SimMatrix.java:204-209 | `AverageFunction` cell by cell keeps the shape |
| Grids.MaxGrid | src/de/tudresden/matchtools/SimMatrix.java:218-221 | `DoubleFunctions.max` cell by cell keeps the shape |
| Grids.AvgGridSelf | src/de/tudresden/matchtools/SimMatrix.java:213-216 | averaging a matrix with itself changes nothing |
| Grids.MaxGridIdempotent | src/de/tudresden/matchtools/SimMatrix.java:218-221 | a second `aggregateMax` with the same matrix changes nothing |
| Grids.MaxGridDominates | src/de/tudresden/matchtools/SimMatrix.java:218-221 | after `aggregateMax` each cell is at least its old value and the other matrix's value |
| Grids.CountPositive | src/de/tudresden/matchtools/SimMatrix.java:237-239 | the votes of k other matrices at one cell are at most k |
| Grids.VoteGrid | src/de/tudresden/matchtools/SimMatrix.java:236-239 | each count is the sign of the cell plus the number of other matrices positive there, so it lies in [−1, k + 1] |
| Grids.Ceil | src/de/tudresden/matchtools/SimMatrix.java:240 | `Math.ceil` as an integer: the least integer at least x |
| Grids.MajorityCeil | src/de/tudresden/matchtools/SimMatrix.java:240 | `(int) ceil((k + 1.0) / 2.0)` is `Majority(k)` |
| Grids.MajorityIsCeiling | src/de/tudresden/matchtools/SimMatrix.java:240 | `Majority(k)` is the least integer whose double is at least k + 1 |
| Grids.MajorityCells | src/de/tudresden/matchtools/SimMatrix.java:235-243 | a cell keeps its vote count when the count reaches the majority, otherwise it becomes 0 |
| Grids.SignGrid | src/de/tudresden/matchtools/SimMatrix.java:236 | `assign(DoubleFunctions.sign)` keeps the shape |
| Grids.AddVotes | src/de/tudresden/matchtools/SimMatrix.java:238 | `assign(o, signAndAddFunction)` keeps the shape |
| Grids.VoteStart | src/de/tudresden/matchtools/SimMatrix.java:236 | before any other matrix votes, the count is the sign of the cell |
| Grids.VoteStep | src/de/tudresden/matchtools/SimMatrix.java:237-239 | each further matrix adds its votes to the count so far |
| Grids.NonZeroCells | src/de/tudresden/matchtools/SimMatrix.java:271-282 | `getNonZeros` as candidates: exactly the non-zero cells, with their values |
| Grids.NonZeroCellsInside | src/de/tudresden/matchtools/SimMatrix.java:284-295 | every listed cell lies inside the matrix, so `A[row]` and `B[col]` exist |
| Grids.NonZeroCellsRowMajor | src/de/tudresden/matchtools/SimMatrix.java:275 | the cells are listed in row-major order |
| Grids.RowToColumnEntries | src/de/tudresden/matchtools/SimMatrix.java:245-256 | the row-to-column map has the listed rows as keys, and maps each to the column of a listed cell of that row |
| Grids.RowToCellEntries | src/de/tudresden/matchtools/SimMatrix.java:258-269 | the row-to-cell map has the listed rows as keys, and maps each to a listed cell of that row |
| Grids.RowMapsOfNonZeroCells | src/de/tudresden/matchtools/SimMatrix.java:245-269 | both maps are keyed by exactly the rows holding a non-zero cell, and map to a non-zero cell of that row with its value |
| Grids.RowSums | src/de/tudresden/matchtools/SimMatrix.java:311-314 | the sum of every row |
| Grids.ColumnSums | src/de/tudresden/matchtools/SimMatrix.java:309-314 | the sums of the rows of the transposed view, one per column |
| Grids.RowSumsTotal | src/de/tudresden/matchtools/SimMatrix.java:311-315 | the row sums add up to the sum of all cells |
| Grids.ColumnSumsTotal | src/de/tudresden/matchtools/SimMatrix.java:309-315 | the column sums add up to the same total as the row sums, so transposing does not change the numerator |
| Grids.MeanByRows | src/de/tudresden/matchtools/SimMatrix.java:191-199 | `s / (m*n)` is the total of all cells over the number of cells |
| Grids.AboveNoiseAtLeastMean | src/de/tudresden/matchtools/SimMatrix.java:184-202 | with a non-negative standard deviation, a cell that survives `selectAboveNoise` is at least the mean |
| Grids.PositiveCount | src/de/tudresden/matchtools/SimMatrix.java:344-358 | the `entries` indicator summed over a row is at most its length |
| Grids.Partner | src/de/tudresden/matchtools/SimMatrix.java:341-375 | the partner of a positive cell is the positive cells of its row plus those of its column, minus 1; any other cell has partner 1; never below 1 |
| Grids.ShareGrid | src/de/tudresden/matchtools/SimMatrix.java:302-308 | each cell divided by its partner |
| Grids.ShareRowBound | src/de/tudresden/matchtools/SimMatrix.java:301-316 | on similarities in [0, 1] the shares of one row add up to at most 1 |
| Grids.ShareTotalBound | src/de/tudresden/matchtools/SimMatrix.java:301-316 | the row totals of the shares add up to at most the number of rows |
| Grids.MonogamyBounds | src/de/tudresden/matchtools/SimMatrix.java:301-316 | on similarities in [0, 1], `getMonogamy` lies in [0, 1] |
| Grids.RowsOf | src/de/tudresden/matchtools/SimMatrix.java:320-323 | the `matchedRows` bit set: a row is in it exactly when a listed cell lies in it |
| Grids.ColsOf | src/de/tudresden/matchtools/SimMatrix.java:329-332 | the bit set of matched columns: a column is in it exactly when a listed cell lies in it |
| Grids.RowsOfNonZeroCells | src/de/tudresden/matchtools/SimMatrix.java:318-325 | the matched rows are exactly the rows holding a non-zero cell |
| Grids.ColsOfNonZeroCells | src/de/tudresden/matchtools/SimMatrix.java:327-334 | the matched columns are exactly the columns holding a non-zero cell |
| Grids.CoverageRowsBounds | src/de/tudresden/matchtools/SimMatrix.java:318-325 | `getCoverageA` lies in [0, 1], and is 1 exactly when every row holds a non-zero cell |
| Grids.CoverageColumnsBounds | src/de/tudresden/matchtools/SimMatrix.java:327-334 | `getCoverageB` lies in [0, 1], and is 1 exactly when every column holds a non-zero cell |
| Grids.GlobalMaxBounds | src/de/tudresden/matchtools/HitMatrix.java:26-29 | no cell exceeds the global maximum, and some cell reaches it |
| Grids.FirstMaxIsGlobal | src/de/tudresden/matchtools/HitMatrix.java:26-29 | the first largest cell in row-major order holds the global maximum |
| Grids.FirstMaxUnique | src/de/tudresden/matchtools/HitMatrix.java:26-29 | the first largest cell is unique |
| Greedy.KeepOnly | src/de/tudresden/matchtools/SimMatrix.java:152-182 | what the greedy selection leaves keeps the shape |
| Greedy.MonogamousRows | src/de/tudresden/matchtools/SimMatrix.java:155-157 | one-to-one accepted cells occupy as many distinct rows as there are cells |
| Greedy.MonogamousCols | src/de/tudresden/matchtools/SimMatrix.java:155-157 | and as many distinct columns |
| Greedy.KeepOnlyOnePerLine | src/de/tudresden/matchtools/SimMatrix.java:172-176 | after selection no row holds two non-zero cells |
| Greedy.KeepOnlyOnePerColumn | src/de/tudresden/matchtools/SimMatrix.java:172-176 | after selection no column holds two non-zero cells |
| Greedy.ClearLines | src/de/tudresden/matchtools/SimMatrix.java:174-176 | one acceptance (row and column cleared, the cell set) keeps the shape |
| Greedy.WalkStart | src/de/tudresden/matchtools/SimMatrix.java:160-161 | the walk starts over the sorted non-zero cells with nothing accepted and the matrix unchanged |
| Greedy.CandidateIsCell | src/de/tudresden/matchtools/SimMatrix.java:160-161 | every sorted candidate is a non-zero cell of the matrix, with its value |
| Greedy.SkipStep | src/de/tudresden/matchtools/SimMatrix.java:169-170 | a candidate whose row or column is used is skipped, and it is blocked by an accepted cell scoring at least as high |
| Greedy.AcceptStep | src/de/tudresden/matchtools/SimMatrix.java:172-178 | a candidate with a free row and a free column is accepted: it lies in the matrix and carries its cell's value |
| Greedy.AcceptOrdered | src/de/tudresden/matchtools/SimMatrix.java:164-178 | after an acceptance the accepted cells are still one-to-one, in non-increasing score order, and all cells of the matrix, and each scores at least every later candidate |
| Greedy.ClearStep | src/de/tudresden/matchtools/SimMatrix.java:174-176 | clearing the row and column of the accepted cell and setting the cell leaves exactly the accepted cells with their old values |
| Greedy.GreedyBlocked | src/de/tudresden/matchtools/SimMatrix.java:164-181 | when the walk ends (all candidates seen, or `maxMatches` reached) every non-zero cell not accepted shares a row or column with an accepted cell scoring at least as high |
| Greedy.CellListed | src/de/tudresden/matchtools/SimMatrix.java:160 | every non-zero cell is among the candidates |
| Greedy.LineTaken | src/de/tudresden/matchtools/SimMatrix.java:179-180 | with min(m, n) accepted one-to-one cells, every cell shares a row or a column with one of them, so stopping early loses nothing |
| Greedy.GreedyKeeps | src/de/tudresden/matchtools/SimMatrix.java:152-182 | the final matrix holds exactly the accepted cells with their old values, and 0 elsewhere |
| Greedy.MonogamousBound | src/de/tudresden/matchtools/SimMatrix.java:157 | one-to-one cells of an m x n matrix number at most min(m, n) |
| Greedy.KeptCellsMonogamous | src/de/tudresden/matchtools/SimMatrix.java:152-182 | the non-zero cells left by the selection are one-to-one and number at most min(m, n) |
| Greedy.KeptCellsAboveThreshold | src/de/tudresden/matchtools/MatchTools.java:151-156 | after thresholding then greedy selection, every remaining cell lies in the matrix, scores at least the threshold and keeps its original value |
| Matrices.Assign | src/de/tudresden/matchtools/SimMatrix.java:116 | Colt `assign(f)`: every cell becomes f of its old value |
| Matrices.Assign2 | src/de/tudresden/matchtools/SimMatrix.java:214 | Colt `assign(o, f)`: every cell becomes f of its old value and o's cell |
| Matrices.SignCells | src/de/tudresden/matchtools/SimMatrix.java:236 | every cell becomes its sign |
| Matrices.AddVotesOf | src/de/tudresden/matchtools/SimMatrix.java:238 | every cell gains one where the other matrix is positive |
| Matrices.RowMaximum | src/de/tudresden/matchtools/SimMatrix.java:380 | the largest entry of row i |
| Matrices.ColumnMaximum | src/de/tudresden/matchtools/SimMatrix.java:121 | the largest entry of column j |
| Matrices.FillRow | src/de/tudresden/matchtools/SimMatrix.java:382 | row i is set to v and every other cell is unchanged |
| Matrices.FillColumn | src/de/tudresden/matchtools/SimMatrix.java:121 | column j is set to v and every other cell is unchanged |
| Matrices.RowMaxima | src/de/tudresden/matchtools/SimMatrix.java:377-383 | `maxima(M)` repeated across the columns: a fresh matrix whose cell (i, j) is the maximum of row i |
| Matrices.ColumnMaxima | src/de/tudresden/matchtools/SimMatrix.java:121 | a fresh matrix whose cell (i, j) is the maximum of column j |
| Matrices.MatMax | src/de/tudresden/matchtools/SimMatrix.java:385-392 | `matMax(a, b)` overwrites a with the cell-wise maximum and returns a |
| Matrices.CombinedMaxima | src/de/tudresden/matchtools/SimMatrix.java:119-122 | `t_m` of `selectMax`: the larger of row and column maximum, cell by cell |
| Matrices.Lower | src/de/tudresden/matchtools/SimMatrix.java:126-138 | `assign(DeltaFunction)`: every cell lowered by delta |
| Matrices.LoweredRowMaxima | src/de/tudresden/matchtools/SimMatrix.java:142 | a fresh matrix of row maxima lowered by delta |
| Matrices.LoweredColumnMaxima | src/de/tudresden/matchtools/SimMatrix.java:143 | a fresh matrix of column maxima lowered by delta |
| Matrices.LoweredMaxima | src/de/tudresden/matchtools/SimMatrix.java:141-144 | `t_m` of `selectMaxDelta`: the larger of the lowered row and column maxima |
| Matrices.SelectedCells | src/de/tudresden/matchtools/SimMatrix.java:394-404 | keeping the cells at or above `t_m` is `SelectMaxGrid` |
| Matrices.CopyCells | src/de/tudresden/matchtools/SimMatrix.java:297-299 | `M.copy()`: a fresh matrix with the same cells |
| Matrices.PositiveIndicator | src/de/tudresden/matchtools/SimMatrix.java:344-353 | the `entries` matrix: 1 where the cell is positive, 0 elsewhere |
| Matrices.RowPositives | src/de/tudresden/matchtools/SimMatrix.java:358 | `entries.viewRow(i).zSum()` is the number of positive cells of row i |
| Matrices.ColumnPositives | src/de/tudresden/matchtools/SimMatrix.java:361 | `entries.viewColumn(j).zSum()` is the number of positive cells of column j |
| Matrices.RowCounts | src/de/tudresden/matchtools/SimMatrix.java:355-359 | the `rowSums` array holds the positive count of every row |
| Matrices.ColumnCounts | src/de/tudresden/matchtools/SimMatrix.java:360-362 | the `colSums` array holds the positive count of every column |
| Matrices.FillPartners | src/de/tudresden/matchtools/SimMatrix.java:364-373 | a positive entry gets rowSums + colSums − 1, any other gets 1.0 |
| Matrices.PartnerMatrix | src/de/tudresden/matchtools/SimMatrix.java:341-375 | `partnerMatrix(M)`: a fresh matrix holding the partner of every cell |
| Matrices.DivideInto | src/de/tudresden/matchtools/SimMatrix.java:303-308 | the partner matrix is overwritten with M's cell over the partner |
| Matrices.Total | src/de/tudresden/matchtools/SimMatrix.java:315 | `zSum()` of a vector is its sum |
| Matrices.RowTotal | src/de/tudresden/matchtools/SimMatrix.java:313 | `viewRow(i).zSum()` is the sum of row i |
| Matrices.ColumnTotal | src/de/tudresden/matchtools/SimMatrix.java:310-313 | a row of the transposed view sums column j |
| Matrices.RowSumsOf | src/de/tudresden/matchtools/SimMatrix.java:311-314 | the `rowSums` vector of an untransposed matrix holds the row sums |
| Matrices.ColumnSumsOf | src/de/tudresden/matchtools/SimMatrix.java:309-314 | the `rowSums` vector of a transposed matrix holds the column sums |
| Matrices.LabelCells | src/de/tudresden/matchtools/SimMatrix.java:290-293 | each listed cell becomes a `Match` of its row label, its column label and its value, in list order |
| Matrices.Texts | src/de/tudresden/matchtools/SimMatrix.java:56-65 | the `string` of every prepared label, in order |
| Matrices.Unbox | src/de/tudresden/matchtools/SimMatrix.java:56-59 | the unboxing loop collects the `string` of every prepared label |
| Matrices.MatchedRows | src/de/tudresden/matchtools/SimMatrix.java:320-323 | the loop setting `matchedRows` collects the rows of the listed cells |
| Matrices.MatchedColumns | src/de/tudresden/matchtools/SimMatrix.java:329-332 | the loop setting the column bit set collects the columns of the listed cells |
| Matrices.SimMatrix.FromMatrix | src/de/tudresden/matchtools/SimMatrix.java:39-44 | `SimMatrix(m)`: the matrix with no labels |
| Matrices.SimMatrix.constructor | src/de/tudresden/matchtools/SimMatrix.java:46-51 | `SimMatrix(m, a, b)`: the matrix and both label arrays |
| Matrices.SimMatrix.FromPrepared | src/de/tudresden/matchtools/SimMatrix.java:53-66 | `SimMatrix(m, PreparedString[], PreparedString[])`: the labels are the `string`s of the prepared labels |
| Matrices.SimMatrix.FromStringsAndPrepared | src/de/tudresden/matchtools/SimMatrix.java:68-77 | `SimMatrix(m, String[], PreparedString[])`: A as given, B unboxed |
| Matrices.SimMatrix.SelectThreshold | src/de/tudresden/matchtools/SimMatrix.java:115-117 | `selectThreshold(th)` leaves M as the threshold of its old cells |
| Matrices.SimMatrix.SelectWhereLarger | src/de/tudresden/matchtools/SimMatrix.java:394-404 | a cell is kept when it is at least b's cell, otherwise set to 0 |
| Matrices.SimMatrix.SelectMaxDelta | src/de/tudresden/matchtools/SimMatrix.java:140-146 | `selectMaxDelta(delta)` leaves M as `SelectMaxGrid` of its old cells: kept iff at least both lowered maxima |
| Matrices.SimMatrix.SelectMaxDeltaDefault | src/de/tudresden/matchtools/SimMatrix.java:148-150 | `selectMaxDelta()` uses delta 0.1 |
| Matrices.SimMatrix.SelectMax | src/de/tudresden/matchtools/SimMatrix.java:119-124 | `selectMax()` uses the unlowered maxima (delta 0) |
| Matrices.SimMatrix.AggregateAvg | src/de/tudresden/matchtools/SimMatrix.java:213-216 | every cell becomes (own + other) / 2, and the method returns this |
| Matrices.SimMatrix.AggregateMax | src/de/tudresden/matchtools/SimMatrix.java:218-221 | every cell becomes max(own, other), and the method returns this |
| Matrices.SimMatrix.RowNonZeros | src/de/tudresden/matchtools/SimMatrix.java:275 | the non-zero cells of row i, left to right |
| Matrices.SimMatrix.GetMatchingIndices | src/de/tudresden/matchtools/SimMatrix.java:271-282 | the list holds exactly the non-zero cells with their values, in row-major order |
| Matrices.SimMatrix.CountMatches | src/de/tudresden/matchtools/SimMatrix.java:91-93 | `countMatches()` is the number of non-zero cells |
| Matrices.SimMatrix.GetMapping | src/de/tudresden/matchtools/SimMatrix.java:284-295 | one `Match` (A[row], B[col], value) per non-zero cell, in the same order, each index inside the label arrays |
| Matrices.SimMatrix.Copy | src/de/tudresden/matchtools/SimMatrix.java:297-299 | a fresh SimMatrix with a fresh copy of the cells and the same label arrays |
| Matrices.SimMatrix.NoiseLevelOf | src/de/tudresden/matchtools/SimMatrix.java:184-200 | the accumulation loop computes sum / (m·n) + 2·stdDev over all cells |
| Matrices.SimMatrix.SelectAboveNoise | src/de/tudresden/matchtools/SimMatrix.java:184-202 | `selectThreshold` at the noise level; a matrix without cells is left as it is |
| Matrices.SimMatrix.CountVotes | src/de/tudresden/matchtools/SimMatrix.java:236-239 | the voting loops leave every cell as its sign plus the number of other matrices positive there |
| Matrices.SimMatrix.AggregateMajorityHorizontal | src/de/tudresden/matchtools/SimMatrix.java:235-243 | every cell keeps its vote count when it reaches ceil((k + 1) / 2), otherwise it becomes 0; the method returns this |
| Matrices.SimMatrix.GetMatchingIndicesMapAtoB | src/de/tudresden/matchtools/SimMatrix.java:245-256 | the map's keys are exactly the rows holding a non-zero cell, each mapped to a column where that row is non-zero |
| Matrices.SimMatrix.GetMatchingIndicesMapAtoBWithSim | src/de/tudresden/matchtools/SimMatrix.java:258-269 | the same keys, each mapped to a non-zero cell of that row with its value |
| Matrices.SimMatrix.GetCoverageA | src/de/tudresden/matchtools/SimMatrix.java:318-325 | the share of rows holding a non-zero cell, in [0, 1], and 1 exactly when every row holds one |
| Matrices.SimMatrix.GetCoverageB | src/de/tudresden/matchtools/SimMatrix.java:327-334 | the share of columns holding a non-zero cell, in [0, 1], and 1 exactly when every column holds one |
| Matrices.SimMatrix.GetBestCoverage | src/de/tudresden/matchtools/SimMatrix.java:336-338 | the larger of the two coverages, in [0, 1] |
| Matrices.SimMatrix.GetMonogamy | src/de/tudresden/matchtools/SimMatrix.java:301-316 | the sum of every cell over its partner, divided by the longer side of the matrix (the transpose when rows < columns) |
| Matrices.SimMatrix.ClearLinesAndSet | src/de/tudresden/matchtools/SimMatrix.java:174-176 | row a and column b are cleared, then cell (a, b) is set to sim |
| Matrices.SimMatrix.SelectBipartiteGreedy | src/de/tudresden/matchtools/SimMatrix.java:152-182 | the accepted cells are one-to-one, in non-increasing score order, non-zero cells of the old matrix, and at most min(m, n) of them; every other non-zero cell lost to an accepted cell in its row or column scoring at least as high; M keeps exactly the accepted cells with their old values |
| Hits.MaxLocation | src/de/tudresden/matchtools/HitMatrix.java:27 | `getMaxLocation()`: the first largest cell in row-major order, and its value; no result exactly when the matrix has no cells, where the call fails |
| Hits.MaxValue | src/de/tudresden/matchtools/HitMatrix.java:32 | the value part of `getMaxLocation()` is the global maximum; no result exactly when the matrix has no cells |
| Hits.MaxDeltaGrid | src/de/tudresden/matchtools/HitMatrix.java:31-34 | `HitMatrix.selectMaxDelta` on values keeps the shape |
| Hits.MaxDeltaCells | src/de/tudresden/matchtools/HitMatrix.java:31-34 | a cell within delta of the global maximum is unchanged, any other becomes 0 |
| Hits.BestHitSurvives | src/de/tudresden/matchtools/HitMatrix.java:31-38 | with a positive best score and delta >= 0, the best hit survives with its value and is still the best hit |
| Hits.MaxDeltaKeepsTop | src/de/tudresden/matchtools/HitMatrix.java:31-34 | under the same conditions the global maximum is unchanged |
| Hits.MaxDeltaIsThreshold | src/de/tudresden/matchtools/HitMatrix.java:31-34 | the hit matrix's `selectMaxDelta(d)` is `selectThreshold(globalMax − d)` |
| Hits.MaxDeltaIdempotent | src/de/tudresden/matchtools/HitMatrix.java:31-34 | applying it twice is applying it once |
| Hits.HitMatrix.FromNeedle | src/de/tudresden/matchtools/HitMatrix.java:12-17 | `HitMatrix(m, needle, haystack)`: stores the matrix, the needle and the table, with no labels and no needle list |
| Hits.HitMatrix.FromNeedles | src/de/tudresden/matchtools/HitMatrix.java:19-24 | `HitMatrix(m, needles, haystack)`: stores the matrix, the needles and the table, with no labels and no single needle |
| Hits.HitMatrix.GetBestHit | src/de/tudresden/matchtools/HitMatrix.java:26-29 | (row, column, value) of the first largest cell, whose value no cell exceeds; no hit exactly when the matrix has no cells, where Java fails |
| Hits.HitMatrix.SelectMaxDelta | src/de/tudresden/matchtools/HitMatrix.java:31-34 | M becomes the threshold of its old cells at globalMax − delta; on a matrix without cells the call fails (`ok` false) and M is unchanged |
| Hits.HitMatrix.SelectMaxDeltaDefault | src/de/tudresden/matchtools/HitMatrix.java:36-38 | the same with delta 0.1, failing in the same case |
| Hits.HitMatrix.SetHaystack | src/de/tudresden/matchtools/HitMatrix.java:44-46 | the table changes and nothing else |
| Hits.HitMatrix.SetNeedle | src/de/tudresden/matchtools/HitMatrix.java:57-59 | the needle changes and nothing else |
| Tools.ScoreGrid | src/de/tudresden/matchtools/MatchTools.java:75-82 | one metric's matrix is len(a) x len(b) |
| Tools.ScoreGrids | src/de/tudresden/matchtools/MatchTools.java:73-84 | one matrix per metric, in the metrics' order |
| Tools.FoldAvg | src/de/tudresden/matchtools/MatchTools.java:85-93 | the fold of pairwise averages keeps the shape |
| Tools.MatchGrid | src/de/tudresden/matchtools/MatchTools.java:71-95 | the matrix `doMatch` computes is len(a) x len(b) |
| Tools.FoldAvgBounds | src/de/tudresden/matchtools/MatchTools.java:85-93 | averaging keeps every cell within bounds all the matrices share (so similarities in [0, 1] stay in [0, 1]) |
| Tools.FoldAvgSame | src/de/tudresden/matchtools/MatchTools.java:89-91 | folding copies of one matrix gives that matrix |
| Tools.FoldAvgStep | src/de/tudresden/matchtools/MatchTools.java:89-91 | folding one more matrix averages it into the running result |
| Tools.FoldAvgTwo | src/de/tudresden/matchtools/MatchTools.java:97-101 | with two metrics each cell is the plain mean of the two scores |
| Tools.FoldAvgThree | src/de/tudresden/matchtools/MatchTools.java:89-91 | with three metrics each cell is ((s0 + s1)/2 + s2)/2 |
| Tools.FoldAvgMeanIff | src/de/tudresden/matchtools/MatchTools.java:89-91 | with three metrics the fold equals the plain mean exactly when 2·s2 = s0 + s1, so in general it is not the mean |
| Tools.FillScores | src/de/tudresden/matchtools/MatchTools.java:75-82 | the filling loop leaves a fresh len(a) x len(b) matrix whose cell (x, y) is the similarity of a[x] and b[y] |
| Tools.LabelGrid | src/de/tudresden/matchtools/MatchTools.java:47-54 | one metric's matrix over prepared labels is len(a) x len(b) |
| Tools.LabelGrids | src/de/tudresden/matchtools/MatchTools.java:45-56 | one matrix per metric over prepared labels |
| Tools.FillRowPrepared | src/de/tudresden/matchtools/MatchTools.java:49-54 | row x of the matrix gets the prepared similarities of a[x] with every b[y]; other rows are unchanged |
| Tools.FillScoresPrepared | src/de/tudresden/matchtools/MatchTools.java:47-54 | the filling loop over prepared labels leaves a fresh matrix of PreparedString similarities |
| Tools.NewScoreMatrix | src/de/tudresden/matchtools/MatchTools.java:75-83 | one pass of the building loop: a fresh labelled matrix of one metric's scores |
| Tools.BuildMatrices | src/de/tudresden/matchtools/MatchTools.java:73-84 | one fresh labelled matrix per metric, each holding that metric's scores, no two sharing an array |
| Tools.NewLabelMatrix | src/de/tudresden/matchtools/MatchTools.java:47-55 | one pass of the building loop over prepared labels, leaving the prepared labels as they were |
| Tools.BuildMatricesPrepared | src/de/tudresden/matchtools/MatchTools.java:45-56 | one fresh matrix per metric over prepared labels, labelled with their `string`s |
| Tools.FoldMatrices | src/de/tudresden/matchtools/MatchTools.java:58-67 | the `AGG_AVG` loop leaves the first matrix holding the left fold of pairwise averages |
| Tools.LocateGrid | src/de/tudresden/matchtools/MatchTools.java:104-117 | the hit matrix of one needle is len(h) x len(h[0]) |
| Tools.BestNeedle | src/de/tudresden/matchtools/MatchTools.java:128-135 | the score of a cell against many needles is at least 0 and at least every needle's similarity, and is 0 or one of them |
| Tools.BestNeedleStep | src/de/tudresden/matchtools/MatchTools.java:129-134 | one more needle moves the running best only on a strictly larger similarity |
| Tools.BestNeedleScore | src/de/tudresden/matchtools/MatchTools.java:128-135 | the inner loop of `locate(needles, h)` computes that best score |
| Tools.LocateManyGrid | src/de/tudresden/matchtools/MatchTools.java:119-138 | the hit matrix of many needles is len(h) x len(h[0]) |
| Tools.LocateOneNeedle | src/de/tudresden/matchtools/MatchTools.java:104-138 | with non-negative scores, locating a one-needle list gives the same matrix as locating that needle |
| Tools.FillHits | src/de/tudresden/matchtools/MatchTools.java:109-115 | the scoring loop of `locate(needle, h)` leaves a fresh matrix of the needle's similarity with every cell |
| Tools.FillManyHitsRow | src/de/tudresden/matchtools/MatchTools.java:125-137 | row x gets the best-needle score of every cell; other rows are unchanged |
| Tools.FillManyHits | src/de/tudresden/matchtools/MatchTools.java:124-137 | the scoring loop of `locate(needles, h)` leaves a fresh matrix of best-needle scores |
| Tools.CleanLabel | src/de/tudresden/matchtools/MatchTools.java:160-164 | a missing label becomes ""; any other is its lower-casing with only characters at or below `' '` removed from both ends, and is empty or starts and ends with a character above `' '` |
| Tools.CleanLabelStable | src/de/tudresden/matchtools/MatchTools.java:158-167 | cleaning a label that is already lower-case and trimmed gives it back unchanged, so cleaning a clean label again changes nothing |
| Tools.MatchTools.constructor | src/de/tudresden/matchtools/MatchTools.java:29-40 | one instance of every metric: the weighted ones with the given weighter and threshold 0.8, and `jaro` holding a Levenshtein as written; `fastWeightedByWordLevenshtein` is never assigned |
| Tools.MatchTools.DoMatch | src/de/tudresden/matchtools/MatchTools.java:71-95 | no result exactly for an empty metric list (`matrices.get(0)` fails); otherwise a fresh len(a) x len(b) matrix labelled a and b holding the left fold of pairwise averages of the metrics' matrices |
| Tools.MatchTools.DoMatchPrepared | src/de/tudresden/matchtools/MatchTools.java:42-69 | the same over prepared labels, labelled with their `string`s |
| Tools.MatchTools.DoMatchDefault | src/de/tudresden/matchtools/MatchTools.java:97-102 | `doMatch(a, b)`: each cell is the mean of the weightedByWordLevenshtein and ngram scores |
| Tools.MatchTools.DefaultMapping | src/de/tudresden/matchtools/MatchTools.java:151-156 | the greedy selection on the matrix thresholded at 0.13 accepts one-to-one cells of that matrix in non-increasing score order, blocking every other non-zero cell; the result is one `Match` per cell it leaves: each scores at least 0.13 and keeps its averaged score, no row or column repeats, and there are at most min(len(a), len(b)) matches |
| Tools.MatchTools.Locate | src/de/tudresden/matchtools/MatchTools.java:104-117 | a hit matrix holding the needle, the table and the needle's scores; no result for a table without rows or with a row shorter than the first |
| Tools.MatchTools.LocateMany | src/de/tudresden/matchtools/MatchTools.java:119-139 | a hit matrix holding the needles, the table and the best-needle scores; no result for the same tables |
| Tools.MatchTools.CleanStringArray | src/de/tudresden/matchtools/MatchTools.java:158-167 | every entry is replaced in place: null becomes "", any other is lower-cased and trimmed; the length is kept |


## Left out

- The foreign primitives (Lucene's `LevensteinDistance`, `NGramDistance`, `JaroWinklerDistance`, the token weighter, Commons-Math's `StandardDeviation` and `String.toLowerCase`) are parameters of the model. Nothing is assumed about them: no range and no symmetry. Bounds that hold only for a non-negative weighter say so in their requires.
- `WebreduceWeighter`, `toString`, the `DEFAULT` instance and the `main` demo are not part of this model.
- IEEE-754 doubles are modelled as `real`: rounding, NaN and infinities are not modelled. The casts of integer counts to `float`/`double` are exact here.
- Divisions by zero become preconditions. Where the numerator is 0 as well, the source yields NaN: `ByWordLevenshteinSimilarity` with both labels blank, `AFocusedSimilarityOfWords` with no s-token, `GetCoverageA`/`GetCoverageB` with no labels, `GetMonogamy` on a 0 x 0 matrix, and the Jaccard similarities with two empty sets.
- StringMetrics.WeightedSimilarity: a zero weight sum is excluded by a precondition. In the source that case is not always NaN. When no token pair matches, the quotients w / 0.0 are computed but never added, and the result is `min(0.0, 1.0) = 0.0`. When a pair matches, the result is NaN or an infinity, because the match adds such a quotient. The model does not cover the zero sum at all.
- StringMetrics.PositionSimilarity: the same zero-weight-sum exclusion as `WeightedSimilarity`.
- Null arguments are not modelled, except for the entries of `cleanStringArray`, which are `Option<string>`.
- `Labelled()` is required by the members that read the label arrays (`GetMapping`, `NoiseLevelOf`, `SelectAboveNoise`, the coverages). It asks for more than non-null labels: `A` must have one label per row and `B` one per column. No Java constructor checks that. Java fails where a label is missing: a null array, or an index past a short array in `getMapping`. With longer label arrays Java still runs, and the coverages and noise level divide by the array lengths rather than by the matrix shape. The model covers only matrices whose labels match their shape, which is how `MatchTools` builds them.
- Matrices of different shapes passed to `aggregateAvg`, `aggregateMax`, `selectWhereLarger` or the majority vote are excluded by preconditions, where Colt throws an IllegalArgumentException.
- Matrices.SimMatrix.AggregateMajorityHorizontal: the other matrices must use arrays distinct from this one. The Java loop on an aliased array would count its own sign-and-add results, and that aliasing is not modelled.
- Matrices.SimMatrix.GetMatchingIndices: Colt's `getNonZeros` order is not documented. The model lists cells row by row, left to right, which is the order of a dense matrix's scan.
- Matrices.SimMatrix.GetMatchingIndicesMapAtoB: the map is fixed by the order in which `getNonZeros` lists the cells. A later `put` for the same row overwrites an earlier one. Under the row-major order assumed above, each row maps to its last non-zero column. With another listing order Colt could leave a different cell of that row; the keys would be the same.
- Matrices.SimMatrix.GetMatchingIndicesMapAtoBWithSim: the same order dependence as `GetMatchingIndicesMapAtoB`.
- Candidates.SortDesc: the contract states sorted and a permutation, but not the stability of `Collections.sort`. The greedy selection's contracts do not depend on the order among equal scores.
- The getters `getM`, `getA`, `getB`, `shape`, `getHaystack`, `getNeedle` and `getNeedles` are field reads of the model's classes and have no members of their own.
- `AggregationStrategy` has only `AGG_AVG` and `DEFAULT`, and `doMatch` treats both as averaging, so only the averaging fold is modelled. The `doMatch` convenience overloads at MatchTools.java lines 141-149 pass their arguments through to `DoMatch` unchanged.
- `StringSimilarity` and `SetSimilarity` are Java interfaces. They become the `StringMetrics.Metric` datatype, dispatched by `Compute`/`ComputePrepared`, and the two functions of `SetMetrics`.
- `HitMatrix extends SimMatrix` becomes composition: a `HitMatrix` holds its `SimMatrix` as `base`. The inherited operations are those of `base`.
- Tools.MatchTools.Locate: a table with no rows or with a row shorter than its first gives no result. Java throws there.
- Tools.MatchTools.LocateMany: the same as `Locate`.
- Tools.MatchTools.DoMatch: an empty metric list gives no result, where `matrices.get(0)` throws.
- Tools.MatchTools.DoMatchPrepared: the same as `DoMatch`.
- The `jaro` field of `MatchTools` holds a Levenshtein metric, because the constructor assigns it one. The model keeps that. The `fastWeightedByWordLevenshtein` field is never assigned, so it stays `None`.
- `SimMatrix.selectMax` keeps a cell only when it reaches both its row maximum and its column maximum, as the code's `t_m = max(rowMax, colMax)` makes it. A description of it as "the maximum of its row or of its column" does not match the code; the model follows the code.
- The `Jaccard` and `GoogleJaccard` results are cast to `float` in the source; the model returns the exact ratio.
- Grids.RowMaxes: an empty row gets 0.0. Java's `maxima` calls `getMaxLocation` on it, which fails. Colt reads the first entry, which does not exist.
- Grids.ColumnMaxes: a matrix without rows gives 0.0 for every column, where Java fails in the same way.
- Matrices.SimMatrix.SelectMaxDelta: on a matrix with no columns but some rows, or no rows but some columns, Java fails inside `maxima`. The model leaves such a matrix unchanged; it has no cells to change. The same holds for `SelectMax` and `SelectMaxDeltaDefault`.
