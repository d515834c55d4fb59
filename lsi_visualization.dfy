/** The discrete part of the cluster visualisation: the saved cluster map
    is flattened back into one label per document, and each non-empty
    cluster's documents are resolved to matrix rows whose column means
    give the cluster's top-term columns. The PCA projections and the plots
    are not modelled. */
module LsiVisualization {
  import opened Wrappers
  import opened Sorting
  import Lsi

  // ---------------------------------------------------------------------
  // Flattening the cluster map.

  /** `{doc_id: i for i, doc_id in enumerate(doc_ids)}`: every id maps to a
      position holding it, and a repeated id keeps its last position. */
  function DocIdToIdx(docIds: seq<int>): (m: map<int, nat>)
    ensures forall d :: d in m <==> d in docIds
    ensures forall d :: d in m ==> m[d] < |docIds| && docIds[m[d]] == d
    ensures forall d, j :: d in m && m[d] < j < |docIds| ==> docIds[j] != d
  {
    if docIds == [] then map[]
    else
      var init := docIds[..|docIds| - 1];
      assert docIds == init + [docIds[|docIds| - 1]];
      DocIdToIdx(init)[docIds[|docIds| - 1] := |docIds| - 1]
  }

  /** Every position the index map can produce is a position of `labels`. */
  ghost predicate IndexFits(idx: map<int, nat>, labels: seq<int>) {
    forall d :: d in idx ==> idx[d] < |labels|
  }

  /** One cluster's list written into the labels: each listed id found in
      the index map sets its position to the cluster id. */
  function ApplyList(labels: seq<int>, idx: map<int, nat>, clusterId: int, docs: seq<int>): (r: seq<int>)
    requires IndexFits(idx, labels)
    ensures |r| == |labels|
  {
    if docs == [] then labels
    else
      var prev := ApplyList(labels, idx, clusterId, docs[..|docs| - 1]);
      var d := docs[|docs| - 1];
      if d in idx then prev[idx[d] := clusterId] else prev
  }

  /** Every (cluster id, list) item written in turn. */
  function ApplyItems(labels: seq<int>, idx: map<int, nat>, items: seq<(int, seq<int>)>): (r: seq<int>)
    requires IndexFits(idx, labels)
    ensures |r| == |labels|
  {
    if items == [] then labels
    else
      var last := items[|items| - 1];
      ApplyList(ApplyItems(labels, idx, items[..|items| - 1]), idx, last.0, last.1)
  }

  /** The label array the flattening loop computes. */
  function Flattened(docIds: seq<int>, items: seq<(int, seq<int>)>): seq<int> {
    ApplyItems(seq(|docIds|, _ => 0), DocIdToIdx(docIds), items)
  }

  /** The flattening loop of the visualisation script: `labels` starts as
      one 0 per document id, and for every cluster item in order, every
      listed id present in `doc_ids` sets its label to the cluster id. */
  method FlattenLabels(docIds: seq<int>, items: seq<(int, seq<int>)>) returns (labels: array<int>)
    ensures labels.Length == |docIds|
    ensures labels[..] == Flattened(docIds, items)
  {
    labels := new int[|docIds|](_ => 0);
    var docIdToIdx := DocIdToIdx(docIds);
    ghost var zeros := seq(|docIds|, _ => 0);
    assert labels[..] == zeros;
    for i := 0 to |items|
      invariant labels[..] == ApplyItems(zeros, docIdToIdx, items[..i])
    {
      var clusterId, docList := items[i].0, items[i].1;
      ghost var start := labels[..];
      assert items[..i + 1][..i] == items[..i];
      for j := 0 to |docList|
        invariant labels[..] == ApplyList(start, docIdToIdx, clusterId, docList[..j])
      {
        var docId := docList[j];
        assert docList[..j + 1][..j] == docList[..j];
        if docId in docIdToIdx {
          labels[docIdToIdx[docId]] := clusterId;
        }
      }
      assert docList[..|docList|] == docList;
    }
    assert items[..|items|] == items;
  }

  /** Some listed id found in the index map points at position `i`. */
  ghost predicate Hits(idx: map<int, nat>, docs: seq<int>, i: int) {
    exists d :: d in docs && d in idx && idx[d] == i
  }

  /** After one list, a position holds the cluster id exactly when a listed
      id points at it, and keeps its old label otherwise. */
  lemma {:induction false} ApplyListAt(labels: seq<int>, idx: map<int, nat>, clusterId: int, docs: seq<int>, i: nat)
    requires IndexFits(idx, labels) && i < |labels|
    ensures ApplyList(labels, idx, clusterId, docs)[i] == if Hits(idx, docs, i) then clusterId else labels[i]
  {
    if docs != [] {
      var init, d := docs[..|docs| - 1], docs[|docs| - 1];
      ApplyListAt(labels, idx, clusterId, init, i);
      assert docs == init + [d];
      if Hits(idx, init, i) {
        var e :| e in init && e in idx && idx[e] == i;
        assert e in docs;
      }
      if Hits(idx, docs, i) && !(d in idx && idx[d] == i) {
        var e :| e in docs && e in idx && idx[e] == i;
        assert e in init;
      }
    }
  }

  /** The index of the last item whose list points at position `i`. */
  ghost function LastHit(idx: map<int, nat>, items: seq<(int, seq<int>)>, i: int): (r: Option<nat>)
    ensures r.Some? ==> r.value < |items| && Hits(idx, items[r.value].1, i)
    ensures r.Some? ==> forall k :: r.value < k < |items| ==> !Hits(idx, items[k].1, i)
    ensures r.None? ==> forall k :: 0 <= k < |items| ==> !Hits(idx, items[k].1, i)
  {
    if items == [] then None
    else if Hits(idx, items[|items| - 1].1, i) then Some(|items| - 1)
    else
      var r := LastHit(idx, items[..|items| - 1], i);
      assert forall k :: 0 <= k < |items| - 1 ==> items[..|items| - 1][k] == items[k];
      r
  }

  /** The last listing wins: a position ends with the cluster id of the
      last item listing an id that points at it, and keeps its initial
      label when no item does. Ids missing from the index map are
      ignored. */
  lemma {:induction false} ApplyItemsAt(labels: seq<int>, idx: map<int, nat>, items: seq<(int, seq<int>)>, i: nat)
    requires IndexFits(idx, labels) && i < |labels|
    ensures ApplyItems(labels, idx, items)[i] == match LastHit(idx, items, i) case Some(k) => items[k].0 case None => labels[i]
  {
    if items != [] {
      var init, last := items[..|items| - 1], items[|items| - 1];
      ApplyItemsAt(labels, idx, init, i);
      ApplyListAt(ApplyItems(labels, idx, init), idx, last.0, last.1, i);
    }
  }

  /** An id that is not among the document ids changes no label, wherever
      it is listed. */
  lemma AbsentIdIgnored(labels: seq<int>, idx: map<int, nat>, clusterId: int, before: seq<int>, d: int, after: seq<int>)
    requires IndexFits(idx, labels) && d !in idx
    ensures ApplyList(labels, idx, clusterId, before + [d] + after) == ApplyList(labels, idx, clusterId, before + after)
  {
    var with, without := before + [d] + after, before + after;
    forall i | 0 <= i < |labels|
      ensures ApplyList(labels, idx, clusterId, with)[i] == ApplyList(labels, idx, clusterId, without)[i]
    {
      ApplyListAt(labels, idx, clusterId, with, i);
      ApplyListAt(labels, idx, clusterId, without, i);
      if Hits(idx, with, i) {
        var e :| e in with && e in idx && idx[e] == i;
        assert e in without;
      }
      if Hits(idx, without, i) {
        var e :| e in without && e in idx && idx[e] == i;
        assert e in with;
      }
    }
  }

  /** `clusters.items()` for the map `clustering_lsi_docs` saves: its keys
      were inserted in the order 0, 1, ..., `CLUSTERS - 1`. */
  function ClusterItems(clusters: map<int, seq<int>>): seq<(int, seq<int>)>
    requires forall c :: 0 <= c < Lsi.Clusters ==> c in clusters
  {
    seq(Lsi.Clusters, c requires 0 <= c < Lsi.Clusters => (c, clusters[c]))
  }

  lemma {:induction false} LastHitUnique(idx: map<int, nat>, items: seq<(int, seq<int>)>, i: int, k: nat)
    requires k < |items|
    requires forall j :: 0 <= j < |items| ==> (Hits(idx, items[j].1, i) <==> j == k)
    ensures LastHit(idx, items, i) == Some(k)
  {
    assert Hits(idx, items[k].1, i);
    var r := LastHit(idx, items, i);
    if r.Some? {
      assert Hits(idx, items[r.value].1, i);
    }
  }

  /** Round trip: flattening the map that `clustering_lsi_docs` builds from
      distinct document ids and in-range labels gives back the labels. */
  lemma FlattenClusterMap(docIds: seq<int>, labels: seq<int>)
    requires Distinct(docIds) && |labels| == |docIds|
    requires forall k :: 0 <= k < |labels| ==> 0 <= labels[k] < Lsi.Clusters
    ensures Flattened(docIds, ClusterItems(Lsi.ClusterMap(docIds, labels))) == labels
  {
    var n := |docIds|;
    var items := ClusterItems(Lsi.ClusterMap(docIds, labels));
    var idx := DocIdToIdx(docIds);
    var zeros := seq(n, _ => 0);
    forall i | 0 <= i < n ensures Flattened(docIds, items)[i] == labels[i] {
      forall c | 0 <= c < |items| ensures Hits(idx, items[c].1, i) <==> c == labels[i] {
        ClusterHits(docIds, labels, i, c);
      }
      LastHitUnique(idx, items, i, labels[i]);
      ApplyItemsAt(zeros, idx, items, i);
    }
  }

  /** Position `i` is listed by cluster `c` of that map exactly when `c`
      is its label. */
  lemma ClusterHits(docIds: seq<int>, labels: seq<int>, i: nat, c: nat)
    requires Distinct(docIds) && |labels| == |docIds| && i < |docIds| && c < Lsi.Clusters
    requires forall k :: 0 <= k < |labels| ==> 0 <= labels[k] < Lsi.Clusters
    ensures Hits(DocIdToIdx(docIds), ClusterItems(Lsi.ClusterMap(docIds, labels))[c].1, i) <==> c == labels[i]
  {
    var n := |docIds|;
    assert Lsi.ZipLength(docIds, labels) == n;
    var items := ClusterItems(Lsi.ClusterMap(docIds, labels));
    var idx := DocIdToIdx(docIds);
    var d := docIds[i];
    assert idx[d] == i by {
      assert docIds[idx[d]] == docIds[i];
    }
    Lsi.MembersElements(docIds, labels, n, c);
    assert items[c].1 == Lsi.Members(docIds, labels, n, c);
    if Hits(idx, items[c].1, i) {
      var e :| e in items[c].1 && e in idx && idx[e] == i;
      assert e == d;
      var j :| 0 <= j < n && docIds[j] == e && labels[j] == c;
      assert j == i;
    }
    if c == labels[i] {
      assert d in items[c].1;
    }
  }

  // ---------------------------------------------------------------------
  // Cluster themes.

  /** `np.where(reverse_map == doc_id)[0][0]`: the first position of `x`. */
  function FirstIndex(s: seq<int>, x: int): (r: nat)
    requires x in s
    ensures r < |s| && s[r] == x
    ensures forall j :: 0 <= j < r ==> s[j] != x
  {
    if s[0] == x then 0
    else
      assert x in s[1..];
      1 + FirstIndex(s[1..], x)
  }

  /** The `rows` comprehension of `extract_cluster_themes`: each listed id
      present in the saved id array resolves to its first position, and
      the others are dropped. */
  function ResolveRows(reverseMap: seq<int>, docList: seq<int>): (rows: seq<nat>)
    ensures |rows| <= |docList|
    ensures forall k :: 0 <= k < |rows| ==> rows[k] < |reverseMap| && reverseMap[rows[k]] in docList
    ensures forall k :: 0 <= k < |rows| ==> forall j :: 0 <= j < rows[k] ==> reverseMap[j] != reverseMap[rows[k]]
  {
    if docList == [] then []
    else
      var rest := ResolveRows(reverseMap, docList[1..]);
      var head := if docList[0] in reverseMap then [FirstIndex(reverseMap, docList[0])] else [];
      assert forall k :: 0 <= k < |rest| ==> reverseMap[rest[k]] in docList by {
        forall k | 0 <= k < |rest| ensures reverseMap[rest[k]] in docList {
          assert reverseMap[rest[k]] in docList[1..];
        }
      }
      head + rest
  }

  /** When every listed id is in the saved array, none is dropped and the
      k-th row is the first position of the k-th id. */
  lemma {:induction false} ResolveRowsAllPresent(reverseMap: seq<int>, docList: seq<int>)
    requires forall k :: 0 <= k < |docList| ==> docList[k] in reverseMap
    ensures |ResolveRows(reverseMap, docList)| == |docList|
    ensures forall k :: 0 <= k < |docList| ==>
      ResolveRows(reverseMap, docList)[k] == FirstIndex(reverseMap, docList[k])
  {
    if docList != [] {
      ResolveRowsAllPresent(reverseMap, docList[1..]);
      var rows := ResolveRows(reverseMap, docList);
      forall k | 0 <= k < |docList| ensures rows[k] == FirstIndex(reverseMap, docList[k]) {
        if k > 0 {
          assert docList[1..][k - 1] == docList[k];
        }
      }
    }
  }

  /** A single listed id resolves to its first position when present, and
      to nothing otherwise. */
  lemma ResolveRowsSingle(reverseMap: seq<int>, x: int)
    ensures ResolveRows(reverseMap, [x]) == if x in reverseMap then [FirstIndex(reverseMap, x)] else []
  {
    assert [x][1..] == [];
  }

  /** The comprehension reads the list in order: the rows of two lists
      joined are the rows of each, joined. With `ResolveRowsSingle`, the
      present ids keep their order and the absent ones are dropped. */
  lemma {:induction false} ResolveRowsConcat(reverseMap: seq<int>, a: seq<int>, b: seq<int>)
    ensures ResolveRows(reverseMap, a + b) == ResolveRows(reverseMap, a) + ResolveRows(reverseMap, b)
  {
    if a == [] {
      assert a + b == b;
    } else {
      var ab := a + b;
      assert ab[0] == a[0] && ab[1..] == a[1..] + b;
      ResolveRowsConcat(reverseMap, a[1..], b);
      var head := if a[0] in reverseMap then [FirstIndex(reverseMap, a[0])] else [];
      assert ResolveRows(reverseMap, ab) == head + ResolveRows(reverseMap, ab[1..]);
      assert ResolveRows(reverseMap, a) == head + ResolveRows(reverseMap, a[1..]);
    }
  }

  /** A matrix with `numRows` rows of `numCols` values. */
  ghost predicate Rectangular(matrix: seq<seq<real>>, numRows: nat, numCols: nat) {
    |matrix| == numRows && forall r :: 0 <= r < |matrix| ==> |matrix[r]| == numCols
  }

  /** Sum of column `c` over the selected rows (repeats counted again). */
  function ColumnSum(matrix: seq<seq<real>>, rows: seq<nat>, c: nat): real
    requires forall k :: 0 <= k < |rows| ==> rows[k] < |matrix| && c < |matrix[rows[k]]|
  {
    if rows == [] then 0.0
    else ColumnSum(matrix, rows[..|rows| - 1], c) + matrix[rows[|rows| - 1]][c]
  }

  /** `tfidf_matrix[rows].mean(axis=0)` for a non-empty row selection. */
  function ColumnMeans(matrix: seq<seq<real>>, rows: seq<nat>, numCols: nat): (means: seq<real>)
    requires rows != []
    requires forall k :: 0 <= k < |rows| ==> rows[k] < |matrix| && |matrix[rows[k]]| == numCols
    ensures |means| == numCols
  {
    seq(numCols, c requires 0 <= c < numCols => ColumnSum(matrix, rows, c) / (|rows| as real))
  }

  /** `np.argsort(vec)[-top_terms:][::-1]`: the columns by descending
      value. The slice `[-0:]` is the whole array, so `top_terms = 0`
      keeps every column; otherwise `min(top_terms, n)` columns are kept.
      Equal values are taken in ascending column order here (numpy leaves
      their order unspecified). */
  function TopIndices(vec: seq<real>, topTerms: nat): seq<nat> {
    TopIds(vec, if topTerms == 0 || topTerms >= |vec| then |vec| else topTerms)
  }

  /** The top-term columns: as many as the slice keeps, valid and
      distinct, in non-increasing order of value, and no column left out
      has a larger value than one kept. */
  lemma TopIndicesSpec(vec: seq<real>, topTerms: nat)
    ensures |TopIndices(vec, topTerms)| == if topTerms == 0 || topTerms >= |vec| then |vec| else topTerms
    ensures forall i :: 0 <= i < |TopIndices(vec, topTerms)| ==> TopIndices(vec, topTerms)[i] < |vec|
    ensures forall i, j :: 0 <= i < j < |TopIndices(vec, topTerms)| ==>
      TopIndices(vec, topTerms)[i] != TopIndices(vec, topTerms)[j]
      && vec[TopIndices(vec, topTerms)[i]] >= vec[TopIndices(vec, topTerms)[j]]
    ensures forall i, c :: 0 <= i < |TopIndices(vec, topTerms)| && 0 <= c < |vec| && c !in TopIndices(vec, topTerms) ==>
      vec[TopIndices(vec, topTerms)[i]] >= vec[c]
  {
    TopIdsSpec(vec, if topTerms == 0 || topTerms >= |vec| then |vec| else topTerms);
  }

  /** One iteration of `extract_cluster_themes`: an empty cluster is
      skipped, and so is (here) a cluster none of whose ids resolve;
      otherwise the top-term columns of the mean row. */
  function ClusterTheme(matrix: seq<seq<real>>, reverseMap: seq<int>, docList: seq<int>,
                        numCols: nat, topTerms: nat): Option<seq<nat>>
    requires Rectangular(matrix, |reverseMap|, numCols)
  {
    if docList == [] then None
    else
      var rows := ResolveRows(reverseMap, docList);
      if rows == [] then None
      else Some(TopIndices(ColumnMeans(matrix, rows, numCols), topTerms))
  }

  /** The cluster ids and top-term columns `extract_cluster_themes` lists,
      in item order. */
  function ClusterThemes(matrix: seq<seq<real>>, reverseMap: seq<int>, items: seq<(int, seq<int>)>,
                         numCols: nat, topTerms: nat): seq<(int, seq<nat>)>
    requires Rectangular(matrix, |reverseMap|, numCols)
  {
    if items == [] then []
    else
      var rest := ClusterThemes(matrix, reverseMap, items[..|items| - 1], numCols, topTerms);
      var last := items[|items| - 1];
      match ClusterTheme(matrix, reverseMap, last.1, numCols, topTerms)
      case None => rest
      case Some(top) => rest + [(last.0, top)]
  }

  /** Every listed theme belongs to a non-empty cluster of the map, has as
      many columns as the slice keeps, and only valid columns. */
  lemma {:induction false} ClusterThemesSpec(matrix: seq<seq<real>>, reverseMap: seq<int>, items: seq<(int, seq<int>)>,
                                             numCols: nat, topTerms: nat)
    requires Rectangular(matrix, |reverseMap|, numCols)
    ensures |ClusterThemes(matrix, reverseMap, items, numCols, topTerms)| <= |items|
    ensures forall t :: t in ClusterThemes(matrix, reverseMap, items, numCols, topTerms) ==>
      && (exists k :: 0 <= k < |items| && items[k].0 == t.0 && items[k].1 != [])
      && |t.1| == (if topTerms == 0 || topTerms >= numCols then numCols else topTerms)
      && forall i :: 0 <= i < |t.1| ==> t.1[i] < numCols
  {
    if items != [] {
      var init, last := items[..|items| - 1], items[|items| - 1];
      ClusterThemesSpec(matrix, reverseMap, init, numCols, topTerms);
      var themes := ClusterThemes(matrix, reverseMap, items, numCols, topTerms);
      var rest := ClusterThemes(matrix, reverseMap, init, numCols, topTerms);
      forall t | t in themes
        ensures && (exists k :: 0 <= k < |items| && items[k].0 == t.0 && items[k].1 != [])
                && |t.1| == (if topTerms == 0 || topTerms >= numCols then numCols else topTerms)
                && forall i :: 0 <= i < |t.1| ==> t.1[i] < numCols
      {
        if t in rest {
          var k :| 0 <= k < |init| && init[k].0 == t.0 && init[k].1 != [];
          assert items[k] == init[k];
        } else {
          var rows := ResolveRows(reverseMap, last.1);
          var means := ColumnMeans(matrix, rows, numCols);
          assert t == (last.0, TopIndices(means, topTerms));
          TopIndicesSpec(means, topTerms);
          assert items[|items| - 1] == last;
        }
      }
    }
  }

  /** Conversely, every cluster with at least one resolved row is listed,
      with the top-term columns of its own mean row. */
  lemma {:induction false} ClusterThemesListed(matrix: seq<seq<real>>, reverseMap: seq<int>, items: seq<(int, seq<int>)>,
                                               numCols: nat, topTerms: nat, k: nat)
    requires Rectangular(matrix, |reverseMap|, numCols)
    requires k < |items| && ResolveRows(reverseMap, items[k].1) != []
    ensures (items[k].0, TopIndices(ColumnMeans(matrix, ResolveRows(reverseMap, items[k].1), numCols), topTerms))
      in ClusterThemes(matrix, reverseMap, items, numCols, topTerms)
  {
    var init := items[..|items| - 1];
    if k < |items| - 1 {
      assert init[k] == items[k];
      ClusterThemesListed(matrix, reverseMap, init, numCols, topTerms, k);
    }
  }
}
