# Information retrieval over parliamentary speeches: a Dafny model

This project models the decision logic of a batch analytics pipeline over
Greek parliamentary speeches, and proves properties of that model. The
pipeline's pieces are:

- **Token cleaning with a memo** (`data_cleaning.py`). Each spaCy token is
  cleaned (symbols, digits, tabs, stop words, short and non-alphabetic
  words removed). It is then stemmed under its part-of-speech tag, with the
  lemma as fallback. The result is cached per raw token in a dictionary
  shared by every speech.
- **Query preprocessing** (`query_processing.py`). The same cleaner is
  applied with an accent-stripping stemmer, without a cache.
- **The inverse index catalogue** (`inverted_index.py`): word → {document
  id → term frequency}.
- **TF-IDF scoring of a query** (`tf_idf.py`). Each query token adds
  `(1 + log tf) · log(1 + N/df)` to every document in its posting list.
  Each hit document is then divided by the square root of its squared TF-IDF
  length.
- **The search endpoint's ranking** (`app.py`): a stable descending sort,
  a cut to five and removal of zero scores.
- **The latent-semantic step** (`LSI.py`):
  - the sorted keyword and speech-id index maps;
  - the COO triplets of the document × keyword matrix;
  - the cluster map `cluster id → doc ids` built from the K-means labels.
- **The cluster visualisation** (`lsi_visualization.py`):
  - flattening the cluster map back into a label array;
  - each cluster's top-term columns.
- **Speaker similarity** (`part3.py`):
  - the member × keyword matrix, whose rows average each member's
    L2-normalised speech vectors;
  - the emission of member pairs into the `member_similarity_pairs` table,
    which is keyed by the member pair and written with `INSERT OR REPLACE`.

Each source file becomes one module: `DataCleaning`, `QueryProcessing`,
`InvertedIndex`, `TfIdf`, `App`, `Lsi`, `LsiVisualization` and
`SpeakerSimilarity`. Three shared modules sit beside them:

- `Text`: Python's `isspace`, `strip`, `split` and `" ".join`;
- `Sorting`: Python's string order, `sorted(set(...))`, enumerate
  position maps, the stable descending sort and the top-k selection of
  `argsort`;
- `Wrappers`: `Option`.

The loops that change state are methods with loop invariants, each proved
against a specification function:

- the counting loop of the index;
- the two passes over the score and length arrays;
- the zero-dropping loop of the search;
- the triplet loop and the cluster-dictionary loop;
- the label-flattening loop over an array;
- the speech loop, the averaging loop and the pair-emission loop;
- the memoised `clean_text` loop and the `process_query` loop.

The similarity table and the stem dictionary are classes with mutable
fields. `SimilarityTable.InsertOrReplace` updates the table's rows.
`DataCleaning.CleanText` updates the dictionary held by a `StemCache`. The lemmas then state what the source promises about
those specification functions.

Foreign code becomes function-valued parameters. This covers:

- spaCy tokens (text, POS tag and lemma), the Greek stemmer (where `None`
  means the stemmer raised) and the stop-word set;
- Python's Unicode `lower`, `upper` and `isalpha`, and accent stripping
  (all in `DataCleaning.Nlp`);
- `math.log` and `math.sqrt`, with the few facts the proofs need
  (`TfIdf.IsLog`, `TfIdf.IsSqrt`);
- the vector norm and the member cosine similarities of `part3.py`.

Database tables and files are passed in as sequences:
`speech_keywords` rows, `speeches` rows, the cleaned CSV's rows and the saved
cluster map. Floating-point values are modelled as `real`.

## Model

| member | source | states |
|---|---|---|
| Text.Strip | inverted_index.py:20 | `strip()` is empty exactly for an all-whitespace string; otherwise it neither starts nor ends with whitespace |
| Text.Split | inverted_index.py:22 | `split()` yields non-empty whitespace-free words, and no words exactly for an all-whitespace string |
| Text.StripKeepsCharacters | data_cleaning.py:41 | `strip()` only removes characters: every character left comes from the input |
| Text.Count | inverted_index.py:24-31 | the count of a word in a token list is positive exactly when the word occurs in it |
| Text.SplitJoin | data_cleaning.py:113 | splitting the space-joined stems gives the non-empty stems back, in order, when no stem contains whitespace |
| Sorting.LexLessIsStrictTotalOrder | LSI.py:31 | Python's string order is irreflexive, transitive and total |
| Sorting.IntLessIsStrictTotalOrder | LSI.py:36 | the integer order used for speech ids is a strict total order |
| Sorting.InsertDistinct | LSI.py:31 | inserting into a strictly sorted list keeps it strictly sorted, and its elements become the old ones plus the new one |
| Sorting.SortDistinct | LSI.py:30-31 | `sorted(set(xs))` is strictly ascending and holds exactly the values of `xs` |
| Sorting.StrictlySortedIsDistinct | LSI.py:31-32 | a strictly sorted list has no repeated value |
| Sorting.PositionMap | LSI.py:32 | `{x: i for i, x in enumerate(xs)}` over distinct values: the keys are the values, each maps to its own position, and every position maps back to its value |
| Sorting.Enumerate | app.py:37 | `enumerate` pairs position `k` with the `k`-th value |
| Sorting.InsertDescending | app.py:37 | one insertion step of the descending sort is a permutation that adds the new entry |
| Sorting.SortDescending | app.py:37 | the descending sort is a permutation of its input |
| Sorting.InsertDescendingRanked | app.py:37 | inserting an entry whose id is below every other id into a ranked list keeps it ranked (higher score first, lower id first among ties) |
| Sorting.SortDescendingRanked | app.py:37 | sorting a list with ascending ids gives a ranked list: this is the stability of `sorted(..., reverse=True)` |
| Sorting.RankIsRanking | app.py:37 | the ranking of `enumerate(scores)` is a permutation of it; it is ranked, lists every position once with its own score, and repeats no id |
| Sorting.TopIds | part3.py:147-152 | exactly `count` positions, all valid |
| Sorting.TopIdsSpec | lsi_visualization.py:67 | the first `count` positions of the ranking are distinct and have non-increasing values; each outranks every position left out; with `count = n` every position is selected |
| Sorting.RankPosition | app.py:37 | every position appears in the ranking, with its own value |
| Sorting.TopIdsOrdered | part3.py:150 | the selected positions are distinct and by non-increasing value |
| Sorting.TopIdsDominate | part3.py:149 | every selected position has a value at least that of every position left out |
| Sorting.TopIdsComplete | part3.py:152 | selecting all positions lists every position |
| InvertedIndex.AddOccurrence | inverted_index.py:24-31 | the three branches (new word, known doc, new doc) leave one more occurrence of the word in the doc and change nothing else |
| InvertedIndex.OneMoreFacts | inverted_index.py:24-31 | after one counting step the index is still well formed (no empty postings, every count ≥ 1); exactly one (word, doc) count rises by one, and the total rises by one |
| InvertedIndex.OneMoreLookup | inverted_index.py:26-31 | one counting step raises the stored frequency of the counted (word, doc) by one and no other |
| InvertedIndex.OneMoreTotal | inverted_index.py:26-31 | one counting step raises the sum of all counts by exactly one |
| InvertedIndex.OneMoreWellFormed | inverted_index.py:26-31 | a counting step keeps every word's postings non-empty and every count ≥ 1 |
| InvertedIndex.CountWords | inverted_index.py:22-31 | the inner loop adds each word's number of occurrences in the row to that word's count for the row's doc id, keeps the index well formed and adds the row's word count to the total |
| InvertedIndex.CreateInverseIndex | inverted_index.py:16-31 | the built index is well formed; for every word and doc id its stored frequency is the word's number of occurrences over all rows with that doc id (rows sharing a doc id are merged); the counts sum to the total number of words |
| InvertedIndex.OccurrencesPositive | inverted_index.py:19-22 | a word occurs in a doc id exactly when some row with that id has the word among its split words |
| InvertedIndex.PostingExists | inverted_index.py:26-31 | a posting for (word, doc) exists exactly when the word occurs in that doc |
| InvertedIndex.IndexKey | inverted_index.py:25-26 | a word is a key of the index exactly when it occurs in some row |
| InvertedIndex.KeyOccurs | inverted_index.py:25-26 | every key of the index occurs in some row |
| InvertedIndex.OccurrencesAppend | inverted_index.py:18-31 | the counts of a corpus are the sums of the counts of its two parts, so rows with the same doc id add up |
| InvertedIndex.BlankRowAddsNothing | inverted_index.py:20-24 | a row whose speech cell is present but empty or only whitespace adds nothing |
| InvertedIndex.MissingSpeechIsNan | inverted_index.py:20 | a missing speech cell is indexed as the single word `nan` |
| InvertedIndex.SumValuesRemove | inverted_index.py:28-31 | the sum of a posting map splits into one entry plus the rest |
| InvertedIndex.SumValuesUpdate | inverted_index.py:28-31 | updating one entry changes the sum by the difference |
| TfIdf.AddPostings | tf_idf.py:24-29 | one query token adds its weight to every document of its posting list and to no other position |
| TfIdf.QueryPass | tf_idf.py:17-29 | starting from zeros, each score holds the sum of the weights of every query token, repeats included; tokens not in the index are skipped |
| TfIdf.AddDocLength | tf_idf.py:35-41 | the length loop adds the squared weights of every token occurrence to the document's own length and leaves the others alone |
| TfIdf.NormalisePass | tf_idf.py:31-46 | a zero score stays 0; any other score is divided by the square root of a positive length, or reset to 0 when the length is 0 |
| TfIdf.ComputeTfIdfSimilarity | tf_idf.py:13-48 | one score per document position, each equal to the normalised TF-IDF score of the query for that document |
| TfIdf.RawScoreAppend | tf_idf.py:20-29 | the query part of a score is additive over a split of the query, so a repeated token counts again |
| TfIdf.AbsentTokenIgnored | tf_idf.py:21-22 | a query token absent from the index changes no score, wherever it sits in the query |
| TfIdf.IdfPositive | tf_idf.py:25 | with `1 ≤ df` and every id below `N`, every idf is positive |
| TfIdf.WeightSign | tf_idf.py:25-29 | every weight is ≥ 0, and positive exactly for a posting |
| TfIdf.RawScoreSign | tf_idf.py:20-29 | the query part of a score is ≥ 0, and positive exactly when some query token has a posting for the document |
| TfIdf.ScoreSign | tf_idf.py:31-46 | every final score is ≥ 0; a document in no query token's posting list scores exactly 0; a positive score implies such a posting |
| TfIdf.DocLengthAppend | tf_idf.py:35-41 | the document length is additive over a split of the text |
| TfIdf.DocLengthRepeats | tf_idf.py:35-41 | a word written `k` times adds its squared weight `k` times, not once |
| TfIdf.DocLengthSign | tf_idf.py:36-46 | a document length is ≥ 0, and positive once a word of the text has a posting for the document, so no division by zero happens |
| TfIdf.AddProduct | tf_idf.py:41 | adding a product of non-negative factors keeps a sum non-negative, and positive when both factors are positive |
| TfIdf.ConsistentIndexScore | tf_idf.py:13-48 | with an index built from the same texts, a document scores above 0 exactly when some query token occurs in its text |
| App.DropZeros | app.py:39-42 | the loop keeps exactly the entries whose score is not 0, in order |
| App.Search | app.py:36-42 | the results are the first five ranked entries minus the zero scores: at most five, none 0, in ranked order, each a valid doc id carrying its own score |
| App.KeepNonZeroSnoc | app.py:40-42 | filtering one more entry appends it exactly when its score is not 0 |
| App.KeepNonZeroSubsequence | app.py:40-42 | the filter keeps no more entries than it reads, all from its input and non-zero, and keeps ranked order |
| App.SearchResults | app.py:37-42 | for any scores: at most five results, none 0, ranked, valid ids with their own scores and no repeated id |
| App.InsertDescendingPositives | app.py:37 | an insertion step of the sort keeps the number of positive entries, plus the new one |
| App.SortDescendingPositives | app.py:37 | sorting keeps the number of positive entries |
| App.PositiveEntriesSnoc | app.py:37 | one more entry adds one positive exactly when its score is positive |
| App.EnumeratePositives | app.py:37 | enumerating keeps the number of positive scores |
| App.KeepNonZeroPrefix | app.py:37-42 | in a non-increasing, non-negative list, the first `k` entries hold `min(positives, k)` non-zero ones |
| App.NoPositives | app.py:37 | a list with no positive score has no positive entry |
| App.NoNonZero | app.py:41-42 | a list of zero scores is filtered away entirely |
| App.SearchCount | app.py:37-42 | with every score ≥ 0, exactly `min(p, 5)` results are returned, `p` the number of positive scores |
| App.PositiveEntriesBound | app.py:37 | there are no more positive entries than entries |
| Lsi.Triplets | LSI.py:42-50 | every `speech_keywords` row yields one triplet, in order: (its doc row, its keyword column, its score) |
| Lsi.BuildTfidfMatrix | LSI.py:22-59 | the saved ids are the sorted distinct speech ids; the shape is (#docs, #keywords); every row gives exactly one triplet at (its speech's index, its keyword's index) with its score, inside the shape |
| Lsi.RowsIndexed | LSI.py:43-46 | the membership test always passes: every row's speech id and keyword have an index |
| Lsi.KeywordIndexBijection | LSI.py:30-32 | the keywords are strictly ascending; `keyword_to_index` maps exactly the table's keywords, the `i`-th keyword to `i`, and each key back to its own position |
| Lsi.DocIndexBijection | LSI.py:35-37 | the same bijection for the sorted distinct speech ids, so the saved id array holds at row `r` the id mapped to `r` |
| Lsi.DocIndexInjective | LSI.py:37 | no two speech ids share a row |
| Lsi.KeywordIndexInjective | LSI.py:32 | no two keywords share a column |
| Lsi.EntryOfUniqueTriplet | LSI.py:55-57 | a matrix cell hit by no triplet holds 0, and one hit by a single triplet holds its value |
| Lsi.DistinctRows | LSI.py:43 | with the (speech id, keyword) primary key, two different rows differ in speech or keyword |
| Lsi.CellsDistinct | LSI.py:44-50 | under injective index maps, distinct table rows land on distinct cells |
| Lsi.CellIsScore | LSI.py:43-57 | with unique (speech, keyword) pairs, the cell of each row holds exactly that row's score |
| Lsi.BuildClusters | LSI.py:97-100 | the cluster map has a key for every id in `0..CLUSTERS-1`, including empty clusters, and each key holds its ids in zip order |
| Lsi.MembersElements | LSI.py:99-100 | an id is in cluster `c` exactly when some zipped pair carries it with label `c` |
| Lsi.ClustersPartition | LSI.py:98-100 | with distinct ids, each zipped id lies in exactly the list of its own label |
| Lsi.SizeSumStep | LSI.py:99-100 | one more zipped pair adds one to the size of its label's cluster |
| Lsi.SizeSumEmpty | LSI.py:98 | before the loop every cluster is empty |
| Lsi.SizeSumPrefix | LSI.py:99-100 | after `n` pairs the cluster sizes add up to `n` |
| Lsi.ClusterSizesSum | LSI.py:98-100 | the cluster sizes add up to the number of clustered documents |
| Lsi.MembersAscending | LSI.py:99-100 | within a cluster, ids keep their relative order from the (ascending) id array |
| LsiVisualization.DocIdToIdx | lsi_visualization.py:96 | the keys are exactly the doc ids; each maps to a position holding it, and no later position holds it (the last one wins) |
| LsiVisualization.ApplyList | lsi_visualization.py:98-100 | writing one cluster's list keeps the label array's length |
| LsiVisualization.ApplyItems | lsi_visualization.py:97-100 | writing every cluster keeps the label array's length |
| LsiVisualization.FlattenLabels | lsi_visualization.py:95-100 | the in-place loop leaves one label per doc id, equal to the label array the specification computes from zeros |
| LsiVisualization.ApplyListAt | lsi_visualization.py:98-100 | after one list, a position holds the cluster id exactly when a listed id found in the map points at it, and its old label otherwise |
| LsiVisualization.LastHit | lsi_visualization.py:97-100 | the item found is the last one whose list points at the position |
| LsiVisualization.ApplyItemsAt | lsi_visualization.py:97-100 | a position ends with the cluster id of the last item listing it (the last listing wins), or keeps its old label when no item lists it |
| LsiVisualization.AbsentIdIgnored | lsi_visualization.py:99 | a listed id absent from the doc ids changes no label |
| LsiVisualization.LastHitUnique | lsi_visualization.py:97-100 | when exactly one item lists a position, it is the last hit |
| LsiVisualization.ClusterHits | lsi_visualization.py:97-100 | in the map built from distinct ids and in-range labels, position `i` is listed by cluster `c` exactly when `c` is its label |
| LsiVisualization.FlattenClusterMap | lsi_visualization.py:95-100 | round trip: flattening the cluster map built from distinct ids and in-range labels gives back the label array |
| LsiVisualization.FirstIndex | lsi_visualization.py:65 | `np.where(...)[0][0]` is the first position holding the id |
| LsiVisualization.ResolveRows | lsi_visualization.py:65 | the rows are valid positions, each the first position of a listed id, no more than the ids listed |
| LsiVisualization.ResolveRowsSingle | lsi_visualization.py:65 | one listed id resolves to its first position when it is present, and to nothing otherwise |
| LsiVisualization.ResolveRowsConcat | lsi_visualization.py:65 | the rows of two joined lists are the rows of each, joined, so the present ids keep their order |
| LsiVisualization.ResolveRowsAllPresent | lsi_visualization.py:65 | when every listed id is present, none is dropped and each resolves to its first position, in list order |
| LsiVisualization.ColumnMeans | lsi_visualization.py:66 | the mean row has one value per column |
| LsiVisualization.TopIndicesSpec | lsi_visualization.py:67 | the top-term columns number `top_terms`, or all columns when `top_terms` is 0 or too large; they are valid and distinct, by non-increasing mean, and each beats every column left out |
| LsiVisualization.ClusterThemesSpec | lsi_visualization.py:62-68 | there are no more themes than clusters; every theme names a non-empty cluster of the map (empty ones are skipped) and holds `top_terms` valid columns, or all columns when `top_terms` is 0 or too large |
| LsiVisualization.ClusterThemesListed | lsi_visualization.py:62-68 | conversely, every cluster with at least one resolved row is listed, with the top-term columns of its own mean row |
| SpeakerSimilarity.SpeechKeywords | part3.py:69-70 | a speech's keyword rows are empty exactly when no table row has its id |
| SpeakerSimilarity.KeywordMembers | part3.py:47-53 | the members listed are exactly those with a speech that has keyword rows |
| SpeakerSimilarity.MemberRows | part3.py:56 | `mpos` maps exactly the member ids, each to its own row |
| SpeakerSimilarity.MemberIdsSpec | part3.py:47-56 | `member_ids` are strictly ascending and distinct, and are exactly the members with a speech that has keyword rows |
| SpeakerSimilarity.MatrixContext | part3.py:40-56 | every vocabulary index is below the vocabulary width |
| SpeakerSimilarity.IndexedKeywords | part3.py:74-82 | `idxs` is empty exactly when none of the speech's keywords is in the vocabulary |
| SpeakerSimilarity.SpeechVector | part3.py:85-86 | the dense speech vector has one entry per vocabulary word |
| SpeakerSimilarity.Normalised | part3.py:92 | normalising keeps the vector's length |
| SpeakerSimilarity.Contribution | part3.py:68-92 | a contributing speech belongs to a member with a row, and its vector spans the vocabulary |
| SpeakerSimilarity.NoSpeechEmptyRow | part3.py:102-105 | a row with no contributing speech sums to 0 |
| SpeakerSimilarity.EmptyMemberRow | part3.py:108-114 | a member with count 0 keeps an empty (all-zero) averaged row |
| SpeakerSimilarity.ZeroScoresZeroVector | part3.py:85-86 | keyword scores that are all 0 give the zero vector |
| SpeakerSimilarity.ZeroScoresSkipped | part3.py:89-91 | a speech whose keyword scores are all 0 has norm 0 and contributes nothing |
| SpeakerSimilarity.SpeechKeywordScores | part3.py:69-70 | every fetched (keyword, score) comes from a table row of that speech |
| SpeakerSimilarity.NonZero | part3.py:96 | `np.nonzero(v)` lists exactly the non-zero positions, ascending |
| SpeakerSimilarity.EntryPrefix | part3.py:105 | matrix cells depend only on the triplets given |
| SpeakerSimilarity.EntrySnoc | part3.py:97-100 | one more triplet adds its value to its own cell only |
| SpeakerSimilarity.AppendNonZero | part3.py:95-100 | one speech's triplets extend the lists, sit on its member's row, and add the normalised vector to that row's cells |
| SpeakerSimilarity.AddSpeech | part3.py:68-102 | a skipped speech changes nothing; a contributing one adds its normalised vector to its member's row and bumps that member's count |
| SpeakerSimilarity.SumSpeechVectors | part3.py:60-105 | every summed cell is the sum of the contributing speeches' vectors for that member, and every member's count is its number of contributing speeches |
| SpeakerSimilarity.Dense | part3.py:105 | the dense view has the matrix's shape and each cell holds the triplets' sum |
| SpeakerSimilarity.ScaleRow | part3.py:114 | scaling keeps the row's length |
| SpeakerSimilarity.ScaledRowMatches | part3.py:114 | scaling a row of sums by `1/cnt` gives the averages |
| SpeakerSimilarity.AverageRow | part3.py:109-114 | one scaled row holds, cell by cell, the member's sum times `1/count`, or the sum itself when the count is 0 |
| SpeakerSimilarity.AverageRows | part3.py:108-114 | the averaging loop turns every summed row into its member's average |
| SpeakerSimilarity.MemberMatrix | part3.py:60-114 | every member row is the average of that member's contributing normalised speech vectors |
| SpeakerSimilarity.FetchMemberKeywordMatrix | part3.py:26-116 | an empty vocabulary gives no members and 0 columns; otherwise the members are the ascending distinct `member_ids`, one column per keyword, and each cell is the member's average |
| SpeakerSimilarity.SimilarityTable.constructor | part3.py:13-21 | `CREATE TABLE IF NOT EXISTS` keeps whatever rows the table already has |
| SpeakerSimilarity.SimilarityTable.InsertOrReplace | part3.py:163-166 | the row keyed by (member1, member2) is set to the score; every other row is unchanged |
| SpeakerSimilarity.Similarities | part3.py:143-144 | one similarity per member row |
| SpeakerSimilarity.CandidateCount | part3.py:147-152 | the number of candidates never exceeds `n` |
| SpeakerSimilarity.Candidates | part3.py:147-152 | the candidates are as many as the count says, each a valid row |
| SpeakerSimilarity.CandidatesSpec | part3.py:147-152 | the candidates are distinct rows by non-increasing similarity; each beats every row left out; without an effective `topk` every row is a candidate |
| SpeakerSimilarity.RowPairs | part3.py:154-167 | row `i` writes at most one pair per candidate, each for a candidate `j > i` with score `sims[j] ≥ min_score` |
| SpeakerSimilarity.EmitRow | part3.py:154-167 | the emission loop of one row counts its inserts and leaves the table updated with that row's pairs, in order |
| SpeakerSimilarity.StoredAppend | part3.py:163-166 | inserting two batches is inserting their concatenation |
| SpeakerSimilarity.EmitMemberRow | part3.py:141-167 | one row of the loop counts and inserts exactly its own pairs |
| SpeakerSimilarity.EmitAllRows | part3.py:141-167 | the row loop counts and inserts every row's pairs, row after row |
| SpeakerSimilarity.ComputeAndStoreAllPairs | part3.py:119-170 | `written` is the number of inserts, and the table is the old table updated with every emitted pair; fewer than two members write nothing |
| SpeakerSimilarity.RowPairsComplete | part3.py:155-161 | every candidate `j > i` with `sims[j] ≥ min_score` is written by row `i` |
| SpeakerSimilarity.RowPairsDistinct | part3.py:155-166 | with distinct ids and candidates, a row never writes the same key twice |
| SpeakerSimilarity.DistinctKeysConcat | part3.py:141-167 | batches with distinct keys, none shared between them, stay distinct when joined |
| SpeakerSimilarity.RowPairsSpec | part3.py:141-161 | row `i` writes exactly the pairs of a candidate `j > i` whose similarity meets `min_score` |
| SpeakerSimilarity.AllPairsMembers | part3.py:141-167 | the first rows write exactly the pairs some row among them emits |
| SpeakerSimilarity.AllPairsDistinct | part3.py:141-167 | with distinct member ids no key is written twice |
| SpeakerSimilarity.EmittedSpec | part3.py:133-167 | everything written is exactly the pairs some row emits for a candidate `j > i` meeting `min_score`, nothing when `n < 2`, with no key written twice for distinct ids |
| SpeakerSimilarity.EmittedOrdered | part3.py:144-161 | with ascending member ids, every written pair has `member1 < member2` (never a self-pair) and score ≥ `min_score` |
| SpeakerSimilarity.EmittedEveryPair | part3.py:151-161 | without an effective `topk`, every pair `i < j` meeting `min_score` is written |
| SpeakerSimilarity.EmittedTopK | part3.py:147-160 | with `topk = k < n-1`, a written pair's `j` is among row `i`'s `k` highest similarities, at least as similar as every other row left out |
| SpeakerSimilarity.StoredOverride | part3.py:163-166 | `INSERT OR REPLACE` overrides old rows with the last score written for each key |
| SpeakerSimilarity.StoredRerun | part3.py:163-166 | running the emission again on the table it produced changes nothing: a rerun overwrites, it never duplicates |
| SpeakerSimilarity.StoredUntouched | part3.py:163-166 | a key no insert names keeps its old row, or stays absent |
| SpeakerSimilarity.StoredValues | part3.py:163-166 | with no key inserted twice, each inserted pair is in the table with its score |
| SpeakerSimilarity.TableAfterEmission | part3.py:119-170 | after the emission, every written pair is in the table with its score, and every key not written keeps its old row |
| DataCleaning.Remove | data_cleaning.py:40-41 | `re.sub` of a one-character class keeps no character of the class and adds none; an input made only of class characters becomes `""` |
| DataCleaning.RemoveUnwantedPattern | data_cleaning.py:21-46 | the result is `""` or a word that is not a stop word, has at least two characters and is all alphabetic |
| DataCleaning.RemoveUnwantedPatternSpec | data_cleaning.py:43-46 | a word is kept exactly when its cleaned form passes the three checks, and then the cleaned form is returned |
| DataCleaning.StripKeepsOut | data_cleaning.py:41 | stripping adds no removed character and no tab |
| DataCleaning.KeptHasNoUnwanted | data_cleaning.py:37-41 | a kept word contains no digit, no listed symbol and no tab |
| DataCleaning.OnlyUnwantedDropped | data_cleaning.py:37-44 | a word of digits and listed symbols only, such as `"123"`, is dropped |
| DataCleaning.StemPos | data_cleaning.py:65-72 | VERB maps to VB, ADJ and ADV to JJM, PROPN to PRP, and NOUN and every other tag to NNM |
| DataCleaning.StemWord | data_cleaning.py:74-78 | the lowered stem of the upper-cased word under the mapped tag, or `""` when the stemmer raises |
| DataCleaning.Standard | data_cleaning.py:98-106 | `clean_text`'s two steps are the cleaner and the stem-or-lemma normaliser |
| DataCleaning.StemFallback | data_cleaning.py:103-106 | a failed stem falls back to the lowered lemma; a non-empty stem is kept |
| DataCleaning.StemCache.constructor | data_cleaning.py:123 | the shared dictionary starts empty |
| DataCleaning.CleanText | data_cleaning.py:81-113 | the text is the space-join of the stems the loop emits, and the shared dictionary ends as the loop leaves it |
| DataCleaning.DictionaryGrows | data_cleaning.py:93-109 | the dictionary only grows: existing entries are never overwritten, and a token that cleans to `""` is never added |
| DataCleaning.OccursSnoc | data_cleaning.py:90-109 | a raw text occurs (and cleans to non-empty) in the tokens exactly when it occurs before the last or is the last |
| DataCleaning.StepKeys | data_cleaning.py:93-109 | one token adds at most its own raw text to the dictionary, and only when it cleans to non-empty |
| DataCleaning.StepValues | data_cleaning.py:93-109 | one token never changes an existing entry; it emits its cached value, or caches and emits its normalised form, or emits nothing |
| DataCleaning.DictionaryKeys | data_cleaning.py:98-109 | a new dictionary key is exactly a raw token of the text that cleans to non-empty |
| DataCleaning.NotBefore | data_cleaning.py:93 | a raw text absent from the tokens does not occur in them |
| DataCleaning.FirstOccurrenceDecides | data_cleaning.py:93-109 | the value cached for a new raw token is the normalised form of its first occurrence, whatever the POS tags of later ones |
| DataCleaning.StepAdds | data_cleaning.py:108 | a new raw token that cleans to non-empty is cached with its normalised form |
| DataCleaning.StepKeeps | data_cleaning.py:93-95 | a cached raw token keeps its value |
| DataCleaning.Lookup | data_cleaning.py:93-95 | the cached values of a token list are no more than the tokens |
| DataCleaning.LookupStable | data_cleaning.py:93-95 | two dictionaries that agree on the tokens give the same cached values |
| DataCleaning.RunIsLookup | data_cleaning.py:90-109 | the output is every token's value in the final dictionary, in token order, and every token is either cached or cleans to `""` |
| DataCleaning.CleanTextLength | data_cleaning.py:90-109 | at most one stem per token is emitted |
| DataCleaning.CleanTextSplits | data_cleaning.py:113 | when no cached stem holds whitespace, splitting the joined text gives back the non-empty emitted stems, as the inverted index reads them |
| DataCleaning.LookupValues | data_cleaning.py:93-95 | every emitted cached value is a value of the dictionary |
| QueryProcessing.CleanQueryWord | query_processing.py:28-49 | the result is `""` or a non-stop word of at least two characters that is all alphabetic |
| QueryProcessing.SameCleaner | query_processing.py:43-49 | `clean_query_word` equals `remove_unwanted_pattern` on every input |
| QueryProcessing.StemQueryWord | query_processing.py:68-80 | the lowered stem of the accent-stripped, upper-cased word, or `""` when the stemmer raises |
| QueryProcessing.StemIgnoresPos | query_processing.py:70-78 | the stem does not depend on the POS tag |
| QueryProcessing.QueryPipeline | query_processing.py:103-112 | the query's two steps are the query cleaner and the stem-or-lemma normaliser |
| QueryProcessing.QueryToken | query_processing.py:105-112 | a token contributes at most one word, and none exactly when it cleans to `""` |
| QueryProcessing.ProcessQuery | query_processing.py:83-114 | the loop returns the query tokens of the specification, no more than the input tokens |
| QueryProcessing.KeptCount | query_processing.py:105-107 | no more kept tokens than tokens |
| QueryProcessing.QueryTokensCount | query_processing.py:103-112 | one output word per token that survives cleaning, and no more |
| QueryProcessing.QueryTokensConcat | query_processing.py:103-112 | no state is carried between tokens: the output of a concatenation is the concatenation of the outputs |
| QueryProcessing.QueryTokensFrom | query_processing.py:109-112 | every output word is the normalised form of a token that survives cleaning |
| QueryProcessing.NoRepeatsNoCache | query_processing.py:103-112 | on tokens with distinct raw texts, `clean_text`'s loop from an empty dictionary emits exactly what `process_query` returns |

## Left out

- I/O is not modelled. This covers the CSV reads and writes, the pickle
  and `.npz`/`.npy` files, SQLite connections and commits, Flask routing and
  every `print`. Tables and files are passed in as sequences and maps.
- SQL row order is not modelled. `SELECT id, member_id FROM speeches` and
  the per-speech keyword query are taken in the order given.
- `SELECT DISTINCT ... ORDER BY` and `sorted(...)` are modelled by
  `Sorting.SortDistinct`.
- SVD (`perform_lsi`) and K-means are not modelled. The K-means labels are
  an input of `Lsi.BuildClusters`.
- PCA, plotly and `name_lsi_dimensions` are not modelled.
- `log`, `sqrt`, the vector norm and the cosine similarity are not
  modelled. They are uninterpreted functions, and only the facts in
  `TfIdf.IsLog`, `TfIdf.IsSqrt` and `SpeakerSimilarity.ZeroOnZero` are
  assumed of them.
- Floating point is not modelled: values are reals, with no `float32`
  rounding and no NaN. `round(score, 4)` in the search endpoint is left
  out.
- `TfIdf.ComputeTfIdfSimilarity` requires every doc id in the index to be
  a position `0..N-1` of the documents, because the scores list is indexed
  by it.
  - An id `≥ N` raises `IndexError`.
  - A negative id adds to `scores[N + id]`, another document's score.
  - Neither happens in the pipeline: `document_id` is the row index
    (data_cleaning.py:121), which is why the requirement holds. Neither
    path is modelled.
- spaCy is not modelled. Tokens (text, POS tag, lemma) are an input.
  Replacing `\xa0` with a space happens before tokenisation and is left
  out with it.
- The Greek stemmer, the stop-word set, Unicode `lower`, `upper` and
  `isalpha`, and NFD accent stripping are parameters.
  - The cleaning lemmas assume `lower` maps `""` to `""` and introduces no
    removed character (`DataCleaning.LowerSound`).
- QueryProcessing.StemQueryWord: accent stripping is a total parameter, so
  an exception raised inside it is not modelled; only a failing stemmer
  yields `""`.
- Sorting.TopIds: `np.argsort` and `np.argpartition` do not promise an order
  among equal values. The model picks one admissible order: the lower
  position first among equal values.
  - For `argsort(-sims)` in `part3.py` this is what a stable sort gives.
  - For `argsort(vec)[-k:][::-1]` in `extract_cluster_themes` a stable
    sort would instead put the higher position first.
  - Every property proved (validity, distinctness, non-increasing order,
    domination over what is left out) holds for any tie order.
- SpeakerSimilarity.Candidates: a negative `topk_per_member` is not
  modelled (`topk` is an `Option<nat>`).
- LsiVisualization.ClusterTheme: a non-empty cluster none of whose ids
  resolves makes the source take the mean of zero rows. That gives NaN and a
  meaningless column order. The model skips such a cluster.
- Keyword names in `extract_cluster_themes` are left out. They are looked up
  in a keyword list fetched without `ORDER BY`, while the matrix columns
  are the sorted keywords. Only column indices are modelled.
- SpeakerSimilarity.FetchMemberKeywordMatrix: the `csr_matrix` is returned
  as a dense `seq<seq<real>>`.
  - The in-place scaling of `X_avg.data` between `indptr[i]` and
    `indptr[i+1]` is modelled as scaling the member's whole row.
  - The rows are scaled by one loop in `member_ids` order. This loop is
    equivalent, since the cells not stored are 0.
- The row normalisation `normalize(X)` of `compute_and_store_all_pairs`,
  and the matrix product giving `sims`, are folded into the `cosine`
  parameter.
- An empty cleaned speech is written to the CSV as an empty cell
  (data_cleaning.py:130-131), and reading the CSV back turns that cell
  into NaN. So in the pipeline an empty speech reaches the index as the
  single word `nan` (`InvertedIndex.MissingSpeechIsNan`), not as a blank
  row. `InvertedIndex.BlankRowAddsNothing` covers only cells that hold
  whitespace.
- The Flask endpoint's speech excerpt, member, party and date fields are
  left out. So is `process_dataset`'s `dropna` and re-indexing.
  `App.Search` models the ranking and filtering only.
- `part2.py`, `create_database.py`, `main.py` and the static JavaScript
  files are not part of this model. They hold JSON output, schema creation
  and ETL, startup orchestration and browser rendering.
- The doc-comment examples of the cleaners (`"!Το@" -> "το"`) are not
  encoded. They depend on the stop-word set, which is a parameter, and
  `το` is itself a Greek stop word.
