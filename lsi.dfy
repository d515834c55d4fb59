/** The discrete part of the latent-semantic step: the document-term
    matrix is assembled from the `speech_keywords` table (sorted keyword
    columns, sorted speech-id rows, one (row, col, score) triplet per table
    row), and the clustering labels are turned into the map
    cluster id -> list of document ids. The SVD and the K-means labels
    themselves are not modelled: the labels are an input. */
module Lsi {
  import opened Sorting

  /** `CLUSTERS`: the number of K-means clusters. */
  const Clusters: nat := 100

  /** One row of `speech_keywords`. */
  datatype KeywordRow = KeywordRow(speechId: int, keyword: string, score: real)

  /** The COO triplets handed to `csr_matrix`, with the matrix shape. */
  datatype SparseMatrix = SparseMatrix(data: seq<real>, rows: seq<nat>, cols: seq<nat>, numRows: nat, numCols: nat)

  function KeywordColumn(table: seq<KeywordRow>): seq<string> {
    seq(|table|, k requires 0 <= k < |table| => table[k].keyword)
  }

  function SpeechColumn(table: seq<KeywordRow>): seq<int> {
    seq(|table|, k requires 0 <= k < |table| => table[k].speechId)
  }

  /** `sorted(SELECT DISTINCT keyword ...)`. */
  function AllKeywords(table: seq<KeywordRow>): seq<string> {
    LexLessIsStrictTotalOrder();
    SortDistinct(KeywordColumn(table), LexLess)
  }

  /** `sorted(SELECT DISTINCT speech_id ...)`. */
  function AllDocIds(table: seq<KeywordRow>): seq<int> {
    IntLessIsStrictTotalOrder();
    SortDistinct(SpeechColumn(table), IntLess)
  }

  /** `keyword_to_index`. */
  function KeywordToIndex(table: seq<KeywordRow>): map<string, nat> {
    var keywords := AllKeywords(table);
    LexLessIsStrictTotalOrder();
    StrictlySortedIsDistinct(keywords, LexLess);
    PositionMap(keywords)
  }

  /** `doc_id_to_index`. */
  function DocIdToIndex(table: seq<KeywordRow>): map<int, nat> {
    var ids := AllDocIds(table);
    IntLessIsStrictTotalOrder();
    StrictlySortedIsDistinct(ids, IntLess);
    PositionMap(ids)
  }

  /** `build_tfidf_matrix`: the sorted keyword and document lists, their
      position maps, and one triplet per table row for which both lookups
      succeed. They always do, so every row yields exactly one triplet,
      at its document's row and its keyword's column. The second result is
      the saved `doc_ids` array. */
  method BuildTfidfMatrix(table: seq<KeywordRow>) returns (m: SparseMatrix, docIds: seq<int>)
    ensures docIds == AllDocIds(table)
    ensures m.numRows == |AllDocIds(table)| && m.numCols == |AllKeywords(table)|
    ensures |m.data| == |table| && |m.rows| == |table| && |m.cols| == |table|
    ensures forall k :: 0 <= k < |table| ==>
      && table[k].speechId in DocIdToIndex(table) && m.rows[k] == DocIdToIndex(table)[table[k].speechId]
      && table[k].keyword in KeywordToIndex(table) && m.cols[k] == KeywordToIndex(table)[table[k].keyword]
      && m.data[k] == table[k].score
    ensures forall k :: 0 <= k < |table| ==> m.rows[k] < m.numRows && m.cols[k] < m.numCols
  {
    var allKeywords := AllKeywords(table);
    var keywordToIndex := KeywordToIndex(table);
    var allDocIds := AllDocIds(table);
    var docIdToIndex := DocIdToIndex(table);
    RowsIndexed(table);
    var data, rows, cols := Triplets(table, keywordToIndex, docIdToIndex);
    m := SparseMatrix(data, rows, cols, |allDocIds|, |allKeywords|);
    docIds := allDocIds;
  }

  /** The triplet loop of `build_tfidf_matrix`, over the two index maps:
      a row whose keyword and speech id both have an index yields the score
      at that row and column. The maps are built from the same table, so
      every lookup succeeds and there is one triplet per row. */
  method Triplets(table: seq<KeywordRow>, keywordToIndex: map<string, nat>, docIdToIndex: map<int, nat>)
    returns (data: seq<real>, rows: seq<nat>, cols: seq<nat>)
    requires forall k :: 0 <= k < |table| ==> table[k].keyword in keywordToIndex && table[k].speechId in docIdToIndex
    ensures |data| == |table| && |rows| == |table| && |cols| == |table|
    ensures forall j :: 0 <= j < |table| ==>
      rows[j] == docIdToIndex[table[j].speechId] && cols[j] == keywordToIndex[table[j].keyword] && data[j] == table[j].score
  {
    data, rows, cols := [], [], [];
    for k := 0 to |table|
      invariant |data| == k && |rows| == k && |cols| == k
      invariant forall j :: 0 <= j < k ==>
        rows[j] == docIdToIndex[table[j].speechId] && cols[j] == keywordToIndex[table[j].keyword] && data[j] == table[j].score
    {
      var speechId, keyword, score := table[k].speechId, table[k].keyword, table[k].score;
      if keyword in keywordToIndex && speechId in docIdToIndex {
        var row := docIdToIndex[speechId];
        var col := keywordToIndex[keyword];
        data := data + [score];
        rows := rows + [row];
        cols := cols + [col];
      }
    }
  }

  /** Every row's speech id and keyword have an index. */
  lemma RowsIndexed(table: seq<KeywordRow>)
    ensures forall k :: 0 <= k < |table| ==>
      table[k].keyword in KeywordToIndex(table) && table[k].speechId in DocIdToIndex(table)
  {
    KeywordIndexBijection(table);
    DocIndexBijection(table);
  }

  /** `keyword_to_index` maps the i-th keyword of the ascending distinct
      keyword list to i: a bijection from the keywords of the table onto
      `0..|keywords|-1`. */
  lemma KeywordIndexBijection(table: seq<KeywordRow>)
    ensures StrictlySorted(AllKeywords(table), LexLess)
    ensures forall kw :: kw in KeywordToIndex(table) <==> exists k :: 0 <= k < |table| && table[k].keyword == kw
    ensures forall i :: 0 <= i < |AllKeywords(table)| ==> KeywordToIndex(table)[AllKeywords(table)[i]] == i
    ensures forall kw :: kw in KeywordToIndex(table) ==>
      KeywordToIndex(table)[kw] < |AllKeywords(table)| && AllKeywords(table)[KeywordToIndex(table)[kw]] == kw
  {
    LexLessIsStrictTotalOrder();
    var column := KeywordColumn(table);
    forall kw ensures kw in column <==> exists k :: 0 <= k < |table| && table[k].keyword == kw {
      if kw in column {
        var k :| 0 <= k < |column| && column[k] == kw;
        assert table[k].keyword == kw;
      }
      if exists k :: 0 <= k < |table| && table[k].keyword == kw {
        var k :| 0 <= k < |table| && table[k].keyword == kw;
        assert column[k] == kw;
      }
    }
  }

  /** `doc_id_to_index` is the same bijection over the ascending distinct
      speech ids, and the saved id array holds at row r the id mapped to
      r. */
  lemma DocIndexBijection(table: seq<KeywordRow>)
    ensures StrictlySorted(AllDocIds(table), IntLess)
    ensures forall s :: s in DocIdToIndex(table) <==> exists k :: 0 <= k < |table| && table[k].speechId == s
    ensures forall r :: 0 <= r < |AllDocIds(table)| ==> DocIdToIndex(table)[AllDocIds(table)[r]] == r
    ensures forall s :: s in DocIdToIndex(table) ==>
      DocIdToIndex(table)[s] < |AllDocIds(table)| && AllDocIds(table)[DocIdToIndex(table)[s]] == s
  {
    IntLessIsStrictTotalOrder();
    var column := SpeechColumn(table);
    forall s ensures s in column <==> exists k :: 0 <= k < |table| && table[k].speechId == s {
      if s in column {
        var k :| 0 <= k < |column| && column[k] == s;
        assert table[k].speechId == s;
      }
      if exists k :: 0 <= k < |table| && table[k].speechId == s {
        var k :| 0 <= k < |table| && table[k].speechId == s;
        assert column[k] == s;
      }
    }
  }

  // ---------------------------------------------------------------------
  // The matrix cells.

  /** Cell (r, c) of `csr_matrix((data, (rows, cols)))` over the first
      `n` triplets: duplicate coordinates are summed. */
  function Entry(data: seq<real>, rows: seq<nat>, cols: seq<nat>, n: nat, r: nat, c: nat): real
    requires n <= |data| && n <= |rows| && n <= |cols|
  {
    if n == 0 then 0.0
    else Entry(data, rows, cols, n - 1, r, c) + (if rows[n - 1] == r && cols[n - 1] == c then data[n - 1] else 0.0)
  }

  /** A cell hit by no triplet holds 0, a cell hit by exactly one holds
      that triplet's value. */
  lemma {:induction false} EntryOfUniqueTriplet(data: seq<real>, rows: seq<nat>, cols: seq<nat>, n: nat, r: nat, c: nat, k: int)
    requires n <= |data| && n <= |rows| && n <= |cols|
    requires forall j :: 0 <= j < n && j != k ==> !(rows[j] == r && cols[j] == c)
    ensures Entry(data, rows, cols, n, r, c) == if 0 <= k < n && rows[k] == r && cols[k] == c then data[k] else 0.0
  {
    if n > 0 {
      EntryOfUniqueTriplet(data, rows, cols, n - 1, r, c, k);
    }
  }

  /** `(speech_id, keyword)` is the primary key of `speech_keywords`. */
  ghost predicate UniquePairs(table: seq<KeywordRow>) {
    forall i, j :: 0 <= i < j < |table| ==>
      table[i].speechId != table[j].speechId || table[i].keyword != table[j].keyword
  }

  lemma DistinctRows(table: seq<KeywordRow>, j: nat, k: nat)
    requires UniquePairs(table) && j < |table| && k < |table| && j != k
    ensures table[j].speechId != table[k].speechId || table[j].keyword != table[k].keyword
  {
    if j > k {
      DistinctRows(table, k, j);
    }
  }

  lemma DocIndexInjective(table: seq<KeywordRow>)
    ensures forall s, t :: s in DocIdToIndex(table) && t in DocIdToIndex(table) && DocIdToIndex(table)[s] == DocIdToIndex(table)[t] ==> s == t
  {
    var ids, docIndex := AllDocIds(table), DocIdToIndex(table);
    forall s, t | s in docIndex && t in docIndex && docIndex[s] == docIndex[t] ensures s == t {
      assert ids[docIndex[s]] == s && ids[docIndex[t]] == t;
    }
  }

  lemma KeywordIndexInjective(table: seq<KeywordRow>)
    ensures forall s, t :: s in KeywordToIndex(table) && t in KeywordToIndex(table) && KeywordToIndex(table)[s] == KeywordToIndex(table)[t] ==> s == t
  {
    var keywords, keywordIndex := AllKeywords(table), KeywordToIndex(table);
    forall s, t | s in keywordIndex && t in keywordIndex && keywordIndex[s] == keywordIndex[t] ensures s == t {
      assert keywords[keywordIndex[s]] == s && keywords[keywordIndex[t]] == t;
    }
  }

  /** The triplets of distinct table rows sit at distinct cells, as long
      as both index maps are injective. */
  lemma CellsDistinct(table: seq<KeywordRow>, rows: seq<nat>, cols: seq<nat>,
                      docIndex: map<int, nat>, keywordIndex: map<string, nat>, k: nat)
    requires UniquePairs(table) && k < |table| && |rows| == |table| && |cols| == |table|
    requires forall s, t :: s in docIndex && t in docIndex && docIndex[s] == docIndex[t] ==> s == t
    requires forall s, t :: s in keywordIndex && t in keywordIndex && keywordIndex[s] == keywordIndex[t] ==> s == t
    requires forall j :: 0 <= j < |table| ==>
      && table[j].speechId in docIndex && rows[j] == docIndex[table[j].speechId]
      && table[j].keyword in keywordIndex && cols[j] == keywordIndex[table[j].keyword]
    ensures forall j :: 0 <= j < |table| && j != k ==> !(rows[j] == rows[k] && cols[j] == cols[k])
  {
    forall j | 0 <= j < |table| && j != k ensures !(rows[j] == rows[k] && cols[j] == cols[k]) {
      DistinctRows(table, j, k);
    }
  }

  /** With unique (speech, keyword) pairs, the matrix built from the
      triplets of `BuildTfidfMatrix` holds each row's score at its
      document's row and its keyword's column. */
  lemma CellIsScore(table: seq<KeywordRow>, m: SparseMatrix, k: nat)
    requires UniquePairs(table) && k < |table|
    requires |m.data| == |table| && |m.rows| == |table| && |m.cols| == |table|
    requires forall j :: 0 <= j < |table| ==>
      && table[j].speechId in DocIdToIndex(table) && m.rows[j] == DocIdToIndex(table)[table[j].speechId]
      && table[j].keyword in KeywordToIndex(table) && m.cols[j] == KeywordToIndex(table)[table[j].keyword]
      && m.data[j] == table[j].score
    ensures Entry(m.data, m.rows, m.cols, |table|, m.rows[k], m.cols[k]) == table[k].score
  {
    var docIndex, keywordIndex := DocIdToIndex(table), KeywordToIndex(table);
    DocIndexInjective(table);
    KeywordIndexInjective(table);
    CellsDistinct(table, m.rows, m.cols, docIndex, keywordIndex, k);
    EntryOfUniqueTriplet(m.data, m.rows, m.cols, |table|, m.rows[k], m.cols[k], k);
  }

  // ---------------------------------------------------------------------
  // The cluster map.

  /** `zip(doc_ids, labels)` stops at the shorter of the two. */
  function ZipLength(docIds: seq<int>, labels: seq<int>): nat {
    if |docIds| <= |labels| then |docIds| else |labels|
  }

  /** The ids among the first `n` zipped pairs whose label is `c`, in
      order. */
  function Members(docIds: seq<int>, labels: seq<int>, n: nat, c: int): seq<int>
    requires n <= |docIds| && n <= |labels|
  {
    if n == 0 then []
    else Members(docIds, labels, n - 1, c) + (if labels[n - 1] == c then [docIds[n - 1]] else [])
  }

  /** Every label the zip reaches is a cluster id. */
  ghost predicate LabelsInRange(docIds: seq<int>, labels: seq<int>) {
    forall k :: 0 <= k < ZipLength(docIds, labels) ==> 0 <= labels[k] < Clusters
  }

  /** The map `clustering_lsi_docs` builds and saves. */
  function ClusterMap(docIds: seq<int>, labels: seq<int>): map<int, seq<int>> {
    map c | 0 <= c < Clusters :: Members(docIds, labels, ZipLength(docIds, labels), c)
  }

  /** The cluster-dictionary loop of `clustering_lsi_docs`: every cluster
      id from 0 to `CLUSTERS - 1` starts with an empty list, and each
      zipped (doc id, label) pair appends the id to its label's list. */
  method BuildClusters(docIds: seq<int>, labels: seq<int>) returns (clusters: map<int, seq<int>>)
    requires LabelsInRange(docIds, labels)
    ensures forall c :: c in clusters <==> 0 <= c < Clusters
    ensures clusters == ClusterMap(docIds, labels)
  {
    clusters := map[];
    for c := 0 to Clusters
      invariant forall c' :: c' in clusters <==> 0 <= c' < c
      invariant forall c' :: c' in clusters ==> clusters[c'] == []
    {
      clusters := clusters[c := []];
    }
    var n := ZipLength(docIds, labels);
    for k := 0 to n
      invariant forall c :: c in clusters <==> 0 <= c < Clusters
      invariant forall c :: c in clusters ==> clusters[c] == Members(docIds, labels, k, c)
    {
      var docId, clusterId := docIds[k], labels[k];
      clusters := clusters[clusterId := clusters[clusterId] + [docId]];
    }
    assert clusters == ClusterMap(docIds, labels);
  }

  /** An id is in cluster c exactly when some zipped pair carries it with
      label c. */
  lemma {:induction false} MembersElements(docIds: seq<int>, labels: seq<int>, n: nat, c: int)
    requires n <= |docIds| && n <= |labels|
    ensures forall x :: x in Members(docIds, labels, n, c) <==> exists k :: 0 <= k < n && docIds[k] == x && labels[k] == c
  {
    if n > 0 {
      MembersElements(docIds, labels, n - 1, c);
    }
  }

  /** With distinct ids, each id of the zip lies in exactly the list of its
      own label: the lists partition the clustered ids. */
  lemma ClustersPartition(docIds: seq<int>, labels: seq<int>, k: nat, c: int)
    requires Distinct(docIds) && LabelsInRange(docIds, labels)
    requires k < ZipLength(docIds, labels)
    ensures c in ClusterMap(docIds, labels) ==> (docIds[k] in ClusterMap(docIds, labels)[c] <==> labels[k] == c)
    ensures labels[k] in ClusterMap(docIds, labels)
  {
    var n := ZipLength(docIds, labels);
    MembersElements(docIds, labels, n, c);
    if docIds[k] in Members(docIds, labels, n, c) {
      var j :| 0 <= j < n && docIds[j] == docIds[k] && labels[j] == c;
      assert j == k;
    }
    if labels[k] == c {
      assert k < n && docIds[k] == docIds[k] && labels[k] == c;
      assert exists j :: 0 <= j < n && docIds[j] == docIds[k] && labels[j] == c;
    }
  }

  /** Sum of the sizes of clusters `0..top-1` over the first `n` pairs. */
  function SizeSum(docIds: seq<int>, labels: seq<int>, n: nat, top: nat): nat
    requires n <= |docIds| && n <= |labels|
  {
    if top == 0 then 0 else SizeSum(docIds, labels, n, top - 1) + |Members(docIds, labels, n, top - 1)|
  }

  lemma {:induction false} SizeSumStep(docIds: seq<int>, labels: seq<int>, n: nat, top: nat)
    requires n < |docIds| && n < |labels|
    ensures SizeSum(docIds, labels, n + 1, top) == SizeSum(docIds, labels, n, top) + (if 0 <= labels[n] < top then 1 else 0)
  {
    if top > 0 {
      SizeSumStep(docIds, labels, n, top - 1);
    }
  }

  lemma {:induction false} SizeSumEmpty(docIds: seq<int>, labels: seq<int>, top: nat)
    ensures SizeSum(docIds, labels, 0, top) == 0
  {
    if top > 0 {
      SizeSumEmpty(docIds, labels, top - 1);
    }
  }

  lemma {:induction false} SizeSumPrefix(docIds: seq<int>, labels: seq<int>, n: nat)
    requires n <= ZipLength(docIds, labels) && LabelsInRange(docIds, labels)
    ensures SizeSum(docIds, labels, n, Clusters) == n
  {
    if n > 0 {
      SizeSumPrefix(docIds, labels, n - 1);
      SizeSumStep(docIds, labels, n - 1, Clusters);
      assert n - 1 < ZipLength(docIds, labels);
    } else {
      SizeSumEmpty(docIds, labels, Clusters);
    }
  }

  /** The cluster sizes add up to the number of clustered documents. */
  lemma ClusterSizesSum(docIds: seq<int>, labels: seq<int>)
    requires LabelsInRange(docIds, labels)
    ensures SizeSum(docIds, labels, ZipLength(docIds, labels), Clusters) == ZipLength(docIds, labels)
  {
    SizeSumPrefix(docIds, labels, ZipLength(docIds, labels));
  }

  /** Appending keeps the id array's order: when the ids ascend (the saved
      array is sorted), every cluster list ascends. */
  lemma {:induction false} MembersAscending(docIds: seq<int>, labels: seq<int>, n: nat, c: int)
    requires n <= |docIds| && n <= |labels|
    requires StrictlySorted(docIds, IntLess)
    ensures StrictlySorted(Members(docIds, labels, n, c), IntLess)
    ensures forall x :: x in Members(docIds, labels, n, c) ==> n > 0 && x <= docIds[n - 1]
  {
    if n > 0 {
      MembersAscending(docIds, labels, n - 1, c);
      var prev := Members(docIds, labels, n - 1, c);
      forall x | x in prev ensures x < docIds[n - 1] {
        assert n - 1 > 0 && x <= docIds[n - 2];
        assert IntLess(docIds[n - 2], docIds[n - 1]);
      }
      if labels[n - 1] == c {
        var cur := prev + [docIds[n - 1]];
        forall i, j | 0 <= i < j < |cur| ensures IntLess(cur[i], cur[j]) {
          if j == |prev| {
            assert cur[i] in prev;
          } else {
            assert cur[i] == prev[i] && cur[j] == prev[j];
          }
        }
      }
    }
  }
}
