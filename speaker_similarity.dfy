/** Speaker-to-speaker similarity: the member x keyword matrix, whose rows
    are the averages of each member's L2-normalised speech vectors, and
    the emission of the member pairs written to `member_similarity_pairs`.
    The vector norm and the cosine similarities are parameters. */
module SpeakerSimilarity {
  import opened Wrappers
  import opened Sorting
  import Lsi

  // ---------------------------------------------------------------------
  // The member x keyword matrix.

  /** One row of `SELECT id, member_id FROM speeches`. */
  datatype Speech = Speech(id: int, memberId: int)

  /** `SELECT keyword, score FROM speech_keywords WHERE speech_id = ?`:
      the (keyword, score) pairs of one speech, in table order. */
  function SpeechKeywords(table: seq<Lsi.KeywordRow>, speechId: int): (kws: seq<(string, real)>)
    ensures |kws| <= |table|
    ensures kws == [] <==> forall k :: 0 <= k < |table| ==> table[k].speechId != speechId
  {
    if table == [] then []
    else
      var init, last := table[..|table| - 1], table[|table| - 1];
      var rest := SpeechKeywords(init, speechId);
      assert forall k :: 0 <= k < |init| ==> init[k] == table[k];
      if last.speechId == speechId then rest + [(last.keyword, last.score)] else rest
  }

  /** The member of every speech that has at least one keyword row: the
      join of `speeches` with `speech_keywords`. */
  function KeywordMembers(table: seq<Lsi.KeywordRow>, speeches: seq<Speech>): (ms: seq<int>)
    ensures forall m :: m in ms <==> exists s :: s in speeches && s.memberId == m && SpeechKeywords(table, s.id) != []
  {
    if speeches == [] then []
    else
      var init, last := speeches[..|speeches| - 1], speeches[|speeches| - 1];
      assert speeches == init + [last];
      var rest := KeywordMembers(table, init);
      if SpeechKeywords(table, last.id) != [] then rest + [last.memberId] else rest
  }

  /** `member_ids`: the distinct members that have a speech with keywords,
      in ascending order. */
  function MemberIds(table: seq<Lsi.KeywordRow>, speeches: seq<Speech>): seq<int> {
    IntLessIsStrictTotalOrder();
    SortDistinct(KeywordMembers(table, speeches), IntLess)
  }

  /** `mpos`: each member id to its row. */
  function MemberRows(memberIds: seq<int>): (mpos: map<int, nat>)
    requires Distinct(memberIds)
    ensures forall m :: m in mpos <==> m in memberIds
    ensures forall i :: 0 <= i < |memberIds| ==> memberIds[i] in mpos && mpos[memberIds[i]] == i
    ensures forall m :: m in mpos ==> mpos[m] < |memberIds| && memberIds[mpos[m]] == m
  {
    PositionMap(memberIds)
  }

  /** The member ids are ascending and distinct, and they are exactly the
      members owning a speech that has at least one keyword row. */
  lemma MemberIdsSpec(table: seq<Lsi.KeywordRow>, speeches: seq<Speech>)
    ensures forall i, j :: 0 <= i < j < |MemberIds(table, speeches)| ==> MemberIds(table, speeches)[i] < MemberIds(table, speeches)[j]
    ensures Distinct(MemberIds(table, speeches))
    ensures forall m :: m in MemberIds(table, speeches) <==>
      exists s :: s in speeches && s.memberId == m && exists k :: 0 <= k < |table| && table[k].speechId == s.id
  {
    IntLessIsStrictTotalOrder();
    var ids := MemberIds(table, speeches);
    StrictlySortedIsDistinct(ids, IntLess);
    forall i, j | 0 <= i < j < |ids| ensures ids[i] < ids[j] {
      assert IntLess(ids[i], ids[j]);
    }
  }

  /** What the speech loop reads: the keyword rows, the vocabulary index
      `vindex` and its width, the member rows `mpos`, and the vector norm
      (`np.linalg.norm`). */
  datatype Context = Context(table: seq<Lsi.KeywordRow>, vindex: map<string, nat>, width: nat,
                             memberRows: map<int, nat>, norm: seq<real> -> real)
  {
    ghost predicate Valid() {
      forall w :: w in vindex ==> vindex[w] < width
    }
  }

  /** The context `_fetch_member_keyword_matrix` builds for a non-empty
      vocabulary. */
  function MatrixContext(table: seq<Lsi.KeywordRow>, speeches: seq<Speech>, norm: seq<real> -> real): (ctx: Context)
    ensures ctx.Valid()
  {
    MemberIdsSpec(table, speeches);
    Context(table, Lsi.KeywordToIndex(table), |Lsi.AllKeywords(table)|, MemberRows(MemberIds(table, speeches)), norm)
  }

  /** The columns `idxs` of the keywords found in the vocabulary. */
  function IndexedKeywords(kws: seq<(string, real)>, vindex: map<string, nat>): (idxs: seq<nat>)
    ensures idxs == [] <==> forall k :: 0 <= k < |kws| ==> kws[k].0 !in vindex
  {
    if kws == [] then []
    else
      var init, last := kws[..|kws| - 1], kws[|kws| - 1];
      assert forall k :: 0 <= k < |init| ==> init[k] == kws[k];
      IndexedKeywords(init, vindex) + (if last.0 in vindex then [vindex[last.0]] else [])
  }

  /** The dense speech vector `v`: zeros, then `v[idxs] = vals`. */
  function SpeechVector(kws: seq<(string, real)>, vindex: map<string, nat>, width: nat): (v: seq<real>)
    requires forall w :: w in vindex ==> vindex[w] < width
    ensures |v| == width
  {
    if kws == [] then seq(width, _ => 0.0)
    else
      var prev := SpeechVector(kws[..|kws| - 1], vindex, width);
      var last := kws[|kws| - 1];
      if last.0 in vindex then prev[vindex[last.0] := last.1] else prev
  }

  /** `v /= norm`. */
  function Normalised(v: seq<real>, norm: real): (u: seq<real>)
    requires norm != 0.0
    ensures |u| == |v|
  {
    seq(|v|, j requires 0 <= j < |v| => v[j] / norm)
  }

  /** The normalised vector one speech adds to its member's row, or None
      when the speech is skipped: it has no keyword rows, its member has
      no row, none of its keywords is in the vocabulary, or its vector has
      norm 0. */
  function Contribution(ctx: Context, s: Speech): (u: Option<seq<real>>)
    requires ctx.Valid()
    ensures u.Some? ==> s.memberId in ctx.memberRows && |u.value| == ctx.width
  {
    var kws := SpeechKeywords(ctx.table, s.id);
    if kws == [] || s.memberId !in ctx.memberRows then None
    else if IndexedKeywords(kws, ctx.vindex) == [] then None
    else
      var v := SpeechVector(kws, ctx.vindex, ctx.width);
      var norm := ctx.norm(v);
      if norm == 0.0 then None else Some(Normalised(v, norm))
  }

  /** What speech `s` adds to cell (r, c) of the summed matrix. */
  function Added(ctx: Context, s: Speech, r: nat, c: nat): real
    requires ctx.Valid()
  {
    match Contribution(ctx, s)
    case None => 0.0
    case Some(u) => if ctx.memberRows[s.memberId] == r && c < |u| then u[c] else 0.0
  }

  /** Cell (r, c) of the summed matrix after the first `n` speeches. */
  function RowSum(ctx: Context, speeches: seq<Speech>, n: nat, r: nat, c: nat): real
    requires ctx.Valid() && n <= |speeches|
  {
    if n == 0 then 0.0 else RowSum(ctx, speeches, n - 1, r, c) + Added(ctx, speeches[n - 1], r, c)
  }

  /** The number of the first `n` speeches that contribute to row `r`. */
  function RowCount(ctx: Context, speeches: seq<Speech>, n: nat, r: nat): nat
    requires ctx.Valid() && n <= |speeches|
  {
    if n == 0 then 0
    else
      var s := speeches[n - 1];
      RowCount(ctx, speeches, n - 1, r) + (if Contribution(ctx, s).Some? && ctx.memberRows[s.memberId] == r then 1 else 0)
  }

  /** The scaling `1 / cnt` applied to a row with `cnt` contributing
      speeches; a row with none is left as it is. */
  function Factor(cnt: nat): real {
    if cnt > 0 then 1.0 / (cnt as real) else 1.0
  }

  /** Cell (r, c) of the averaged matrix. */
  function RowAverage(ctx: Context, speeches: seq<Speech>, r: nat, c: nat): real
    requires ctx.Valid()
  {
    RowSum(ctx, speeches, |speeches|, r, c) * Factor(RowCount(ctx, speeches, |speeches|, r))
  }

  /** A row without a contributing speech stays empty. */
  lemma {:induction false} NoSpeechEmptyRow(ctx: Context, speeches: seq<Speech>, n: nat, r: nat, c: nat)
    requires ctx.Valid() && n <= |speeches| && RowCount(ctx, speeches, n, r) == 0
    ensures RowSum(ctx, speeches, n, r, c) == 0.0
  {
    if n > 0 {
      NoSpeechEmptyRow(ctx, speeches, n - 1, r, c);
    }
  }

  /** The averaged matrix: a member with no contributing speech has an
      all-zero row. */
  lemma EmptyMemberRow(ctx: Context, speeches: seq<Speech>, r: nat, c: nat)
    requires ctx.Valid() && RowCount(ctx, speeches, |speeches|, r) == 0
    ensures RowAverage(ctx, speeches, r, c) == 0.0
  {
    NoSpeechEmptyRow(ctx, speeches, |speeches|, r, c);
  }

  /** A norm in the sense the speech loop needs: 0 on the zero vector. */
  ghost predicate ZeroOnZero(norm: seq<real> -> real) {
    forall v: seq<real> :: (forall j :: 0 <= j < |v| ==> v[j] == 0.0) ==> norm(v) == 0.0
  }

  lemma {:induction false} ZeroScoresZeroVector(kws: seq<(string, real)>, vindex: map<string, nat>, width: nat)
    requires forall w :: w in vindex ==> vindex[w] < width
    requires forall k :: 0 <= k < |kws| ==> kws[k].1 == 0.0
    ensures forall j :: 0 <= j < width ==> SpeechVector(kws, vindex, width)[j] == 0.0
  {
    if kws != [] {
      ZeroScoresZeroVector(kws[..|kws| - 1], vindex, width);
    }
  }

  /** A speech whose keyword scores are all 0 has a zero vector, hence
      norm 0, and is skipped: it adds nothing and is not counted. */
  lemma ZeroScoresSkipped(ctx: Context, s: Speech)
    requires ctx.Valid() && ZeroOnZero(ctx.norm)
    requires forall k :: 0 <= k < |ctx.table| && ctx.table[k].speechId == s.id ==> ctx.table[k].score == 0.0
    ensures Contribution(ctx, s) == None
  {
    var kws := SpeechKeywords(ctx.table, s.id);
    SpeechKeywordScores(ctx.table, s.id);
    forall k | 0 <= k < |kws| ensures kws[k].1 == 0.0 {
      assert kws[k] in kws;
    }
    ZeroScoresZeroVector(kws, ctx.vindex, ctx.width);
  }

  lemma {:induction false} SpeechKeywordScores(table: seq<Lsi.KeywordRow>, speechId: int)
    ensures forall p :: p in SpeechKeywords(table, speechId) ==>
      exists k :: 0 <= k < |table| && table[k].speechId == speechId && p == (table[k].keyword, table[k].score)
  {
    if table != [] {
      var init := table[..|table| - 1];
      SpeechKeywordScores(init, speechId);
      assert forall k :: 0 <= k < |init| ==> init[k] == table[k];
    }
  }

  // The COO triplets.

  /** `np.nonzero(v)[0]` over the first `n` positions: ascending. */
  function NonZero(v: seq<real>, n: nat): (nz: seq<nat>)
    requires n <= |v|
    ensures forall j: nat :: j in nz <==> j < n && v[j] != 0.0
    ensures forall a, b :: 0 <= a < b < |nz| ==> nz[a] < nz[b]
  {
    if n == 0 then []
    else
      var rest := NonZero(v, n - 1);
      assert forall a :: 0 <= a < |rest| ==> rest[a] < n - 1 by {
        forall a | 0 <= a < |rest| ensures rest[a] < n - 1 { assert rest[a] in rest; }
      }
      if v[n - 1] != 0.0 then rest + [n - 1] else rest
  }

  lemma {:induction false} EntryPrefix(d1: seq<real>, r1: seq<nat>, c1: seq<nat>,
                                       d2: seq<real>, r2: seq<nat>, c2: seq<nat>, n: nat, r: nat, c: nat)
    requires n <= |d1| && n <= |r1| && n <= |c1| && n <= |d2| && n <= |r2| && n <= |c2|
    requires forall k :: 0 <= k < n ==> d1[k] == d2[k] && r1[k] == r2[k] && c1[k] == c2[k]
    ensures Lsi.Entry(d1, r1, c1, n, r, c) == Lsi.Entry(d2, r2, c2, n, r, c)
  {
    if n > 0 {
      EntryPrefix(d1, r1, c1, d2, r2, c2, n - 1, r, c);
    }
  }

  /** One more triplet adds its value to its own cell only. */
  lemma EntrySnoc(data: seq<real>, rows: seq<nat>, cols: seq<nat>, x: real, a: nat, b: nat)
    requires |rows| == |data| && |cols| == |data|
    ensures forall r: nat, c: nat :: (Lsi.Entry(data + [x], rows + [a], cols + [b], |data| + 1, r, c)
      == Lsi.Entry(data, rows, cols, |data|, r, c) + (if a == r && b == c then x else 0.0))
  {
    forall r: nat, c: nat ensures Lsi.Entry(data + [x], rows + [a], cols + [b], |data| + 1, r, c)
      == Lsi.Entry(data, rows, cols, |data|, r, c) + (if a == r && b == c then x else 0.0)
    {
      EntryPrefix(data + [x], rows + [a], cols + [b], data, rows, cols, |data|, r, c);
    }
  }

  /** The inner loop of one speech: a triplet (row `i`, column `j`,
      `u[j]`) for every non-zero `u[j]`, in ascending `j`. Cell (i, c)
      grows by `u[c]`; no other cell changes. */
  method AppendNonZero(rows0: seq<nat>, cols0: seq<nat>, data0: seq<real>, i: nat, u: seq<real>)
    returns (rows: seq<nat>, cols: seq<nat>, data: seq<real>)
    requires |rows0| == |data0| && |cols0| == |data0|
    ensures |rows| == |data| && |cols| == |data| && |data| >= |data0|
    ensures forall k :: 0 <= k < |data0| ==> rows[k] == rows0[k] && cols[k] == cols0[k] && data[k] == data0[k]
    ensures forall k :: |data0| <= k < |data| ==> rows[k] == i && cols[k] < |u|
    ensures forall r: nat, c: nat :: (Lsi.Entry(data, rows, cols, |data|, r, c)
      == Lsi.Entry(data0, rows0, cols0, |data0|, r, c) + (if r == i && c < |u| then u[c] else 0.0))
  {
    var nz := NonZero(u, |u|);
    rows, cols, data := rows0, cols0, data0;
    for t := 0 to |nz|
      invariant |rows| == |data0| + t && |cols| == |rows| && |data| == |rows|
      invariant forall k :: 0 <= k < |data0| ==> rows[k] == rows0[k] && cols[k] == cols0[k] && data[k] == data0[k]
      invariant forall k :: |data0| <= k < |data| ==> rows[k] == i && cols[k] < |u|
      invariant forall r: nat, c: nat :: (Lsi.Entry(data, rows, cols, |data|, r, c)
        == Lsi.Entry(data0, rows0, cols0, |data0|, r, c) + (if r == i && c in nz[..t] && c < |u| then u[c] else 0.0))
    {
      var j := nz[t];
      assert j in nz && j < |u|;
      assert nz[..t + 1] == nz[..t] + [j];
      assert j !in nz[..t] by {
        forall a | 0 <= a < t ensures nz[a] != j { assert nz[a] < nz[t]; }
      }
      EntrySnoc(data, rows, cols, u[j], i, j);
      rows, cols, data := rows + [i], cols + [j], data + [u[j]];
    }
    assert nz[..|nz|] == nz;
  }

  /** One iteration of the speech loop: a skipped speech changes nothing;
      otherwise its normalised vector's non-zero values are appended at
      its member's row and the member's count goes up by one. */
  method AddSpeech(ctx: Context, rows0: seq<nat>, cols0: seq<nat>, data0: seq<real>, counts0: map<int, nat>, sp: Speech)
    returns (rows: seq<nat>, cols: seq<nat>, data: seq<real>, speechCounts: map<int, nat>)
    requires ctx.Valid() && |rows0| == |data0| && |cols0| == |data0|
    requires forall m :: m in ctx.memberRows ==> m in counts0
    ensures |rows| == |data| && |cols| == |data| && |data| >= |data0|
    ensures forall k :: 0 <= k < |data0| ==> rows[k] == rows0[k] && cols[k] == cols0[k]
    ensures forall k :: |data0| <= k < |data| ==> sp.memberId in ctx.memberRows && rows[k] == ctx.memberRows[sp.memberId] && cols[k] < ctx.width
    ensures forall r: nat, c: nat :: (Lsi.Entry(data, rows, cols, |data|, r, c)
      == Lsi.Entry(data0, rows0, cols0, |data0|, r, c) + Added(ctx, sp, r, c))
    ensures speechCounts == if Contribution(ctx, sp).Some? then counts0[sp.memberId := counts0[sp.memberId] + 1] else counts0
  {
    rows, cols, data, speechCounts := rows0, cols0, data0, counts0;
    var speechId, memberId := sp.id, sp.memberId;
    var kws := SpeechKeywords(ctx.table, speechId);
    if kws == [] || memberId !in ctx.memberRows {
      return;
    }
    var idxs := IndexedKeywords(kws, ctx.vindex);
    if idxs == [] {
      return;
    }
    var v := SpeechVector(kws, ctx.vindex, ctx.width);
    var norm := ctx.norm(v);
    if norm == 0.0 {
      return;
    }
    v := Normalised(v, norm);
    assert Contribution(ctx, sp) == Some(v);
    var i := ctx.memberRows[memberId];
    rows, cols, data := AppendNonZero(rows, cols, data, i, v);
    speechCounts := speechCounts[memberId := speechCounts[memberId] + 1];
  }

  /** The speech loop: the triplets of every contributing speech, and the
      per-member count `speech_counts`. */
  method SumSpeechVectors(ctx: Context, memberIds: seq<int>, speeches: seq<Speech>)
    returns (rows: seq<nat>, cols: seq<nat>, data: seq<real>, speechCounts: map<int, nat>)
    requires ctx.Valid() && Distinct(memberIds) && ctx.memberRows == MemberRows(memberIds)
    ensures |rows| == |data| && |cols| == |data|
    ensures forall k :: 0 <= k < |data| ==> rows[k] < |memberIds| && cols[k] < ctx.width
    ensures forall r: nat, c: nat :: Lsi.Entry(data, rows, cols, |data|, r, c) == RowSum(ctx, speeches, |speeches|, r, c)
    ensures forall m :: m in speechCounts <==> m in memberIds
    ensures forall m :: m in speechCounts ==> speechCounts[m] == RowCount(ctx, speeches, |speeches|, ctx.memberRows[m])
  {
    rows, cols, data := [], [], [];
    speechCounts := map m | m in memberIds :: 0;
    for s := 0 to |speeches|
      invariant |rows| == |data| && |cols| == |data|
      invariant forall k :: 0 <= k < |data| ==> rows[k] < |memberIds| && cols[k] < ctx.width
      invariant forall r: nat, c: nat :: Lsi.Entry(data, rows, cols, |data|, r, c) == RowSum(ctx, speeches, s, r, c)
      invariant forall m :: m in speechCounts <==> m in memberIds
      invariant forall m :: m in speechCounts ==> speechCounts[m] == RowCount(ctx, speeches, s, ctx.memberRows[m])
    {
      var sp := speeches[s];
      ghost var contributes := Contribution(ctx, sp).Some?;
      rows, cols, data, speechCounts := AddSpeech(ctx, rows, cols, data, speechCounts, sp);
      forall r: nat, c: nat ensures Lsi.Entry(data, rows, cols, |data|, r, c) == RowSum(ctx, speeches, s + 1, r, c) {
        assert RowSum(ctx, speeches, s + 1, r, c) == RowSum(ctx, speeches, s, r, c) + Added(ctx, sp, r, c);
      }
      forall m | m in speechCounts ensures speechCounts[m] == RowCount(ctx, speeches, s + 1, ctx.memberRows[m]) {
        assert RowCount(ctx, speeches, s + 1, ctx.memberRows[m])
          == RowCount(ctx, speeches, s, ctx.memberRows[m]) + (if contributes && ctx.memberRows[sp.memberId] == ctx.memberRows[m] then 1 else 0);
        if contributes && ctx.memberRows[sp.memberId] == ctx.memberRows[m] {
          assert sp.memberId == m;
        }
      }
    }
  }

  /** `csr_matrix((data, (rows, cols)), shape=(numRows, numCols))`, read
      as its dense rows: triplets at the same cell are summed. */
  function Dense(data: seq<real>, rows: seq<nat>, cols: seq<nat>, numRows: nat, numCols: nat): (m: seq<seq<real>>)
    requires |rows| == |data| && |cols| == |data|
    ensures |m| == numRows && forall r :: 0 <= r < numRows ==> |m[r]| == numCols
    ensures forall r, c :: 0 <= r < numRows && 0 <= c < numCols ==> m[r][c] == Lsi.Entry(data, rows, cols, |data|, r, c)
  {
    seq(numRows, r requires 0 <= r < numRows =>
      seq(numCols, c requires 0 <= c < numCols => Lsi.Entry(data, rows, cols, |data|, r, c)))
  }

  /** The averaging loop: for every member in `member_ids` order with a
      positive count, the values of its row are multiplied by
      `1 / count`. Starting from the summed rows, this gives every cell
      its average. */
  method AverageRows(ctx: Context, speeches: seq<Speech>, memberIds: seq<int>, speechCounts: map<int, nat>,
                     sum: seq<seq<real>>) returns (avg: seq<seq<real>>)
    requires ctx.Valid()
    requires forall i :: 0 <= i < |memberIds| ==> memberIds[i] in speechCounts && memberIds[i] in ctx.memberRows && ctx.memberRows[memberIds[i]] == i
    requires forall m :: m in speechCounts ==> m in ctx.memberRows && speechCounts[m] == RowCount(ctx, speeches, |speeches|, ctx.memberRows[m])
    requires |sum| == |memberIds| && forall r :: 0 <= r < |sum| ==> |sum[r]| == ctx.width
    requires forall r: nat, c: nat :: r < |sum| && c < ctx.width ==> sum[r][c] == RowSum(ctx, speeches, |speeches|, r, c)
    ensures |avg| == |sum| && forall r :: 0 <= r < |avg| ==> |avg[r]| == ctx.width
    ensures forall r: nat, c: nat :: r < |avg| && c < ctx.width ==> avg[r][c] == RowAverage(ctx, speeches, r, c)
  {
    avg := sum;
    for i := 0 to |memberIds|
      invariant |avg| == |sum| && forall r :: 0 <= r < |avg| ==> |avg[r]| == ctx.width
      invariant forall r: nat, c: nat :: r < |avg| && c < ctx.width ==>
        avg[r][c] == if r < i then RowAverage(ctx, speeches, r, c) else sum[r][c]
    {
      var mid := memberIds[i];
      assert mid in speechCounts && mid in ctx.memberRows && ctx.memberRows[mid] == i;
      var cnt := speechCounts[mid];
      assert cnt == RowCount(ctx, speeches, |speeches|, ctx.memberRows[mid]);
      var row := avg[i];
      if cnt > 0 {
        avg := avg[i := ScaleRow(row, cnt)];
      }
      AverageRow(ctx, speeches, i, row, avg[i], cnt);
    }
  }

  /** `X_avg.data[start:end] *= (1.0 / float(cnt))` on one row. */
  function ScaleRow(row: seq<real>, cnt: nat): (scaled: seq<real>)
    requires cnt > 0
    ensures |scaled| == |row|
  {
    seq(|row|, c requires 0 <= c < |row| => row[c] * (1.0 / (cnt as real)))
  }

  lemma AverageRow(ctx: Context, speeches: seq<Speech>, r: nat, row: seq<real>, newRow: seq<real>, cnt: nat)
    requires ctx.Valid() && |row| == ctx.width
    requires forall c: nat :: c < ctx.width ==> row[c] == RowSum(ctx, speeches, |speeches|, r, c)
    requires cnt == RowCount(ctx, speeches, |speeches|, r)
    requires newRow == if cnt > 0 then ScaleRow(row, cnt) else row
    ensures |newRow| == ctx.width
    ensures forall c: nat :: c < ctx.width ==> newRow[c] == RowAverage(ctx, speeches, r, c)
  {
    var sums := seq(ctx.width, c requires 0 <= c < ctx.width => RowSum(ctx, speeches, |speeches|, r, c));
    var avgs := seq(ctx.width, c requires 0 <= c < ctx.width => RowAverage(ctx, speeches, r, c));
    assert forall c :: 0 <= c < ctx.width ==> row[c] == sums[c];
    assert forall c :: 0 <= c < ctx.width ==> avgs[c] == sums[c] * Factor(cnt);
    ScaledRowMatches(row, newRow, cnt, sums, avgs);
  }

  /** Scaling a row of sums by the factor of `cnt` gives the averages. */
  lemma ScaledRowMatches(row: seq<real>, newRow: seq<real>, cnt: nat, sums: seq<real>, avgs: seq<real>)
    requires |row| == |sums| == |avgs|
    requires forall c :: 0 <= c < |row| ==> row[c] == sums[c]
    requires forall c :: 0 <= c < |row| ==> avgs[c] == sums[c] * Factor(cnt)
    requires newRow == if cnt > 0 then ScaleRow(row, cnt) else row
    ensures newRow == avgs
  {
    assert |newRow| == |avgs|;
    forall c | 0 <= c < |row| ensures newRow[c] == avgs[c] {
      if cnt > 0 {
        assert Factor(cnt) == 1.0 / (cnt as real);
        assert newRow[c] == row[c] * Factor(cnt);
      }
    }
  }

  /** The speech loop followed by the averaging loop, for a known
      vocabulary width and member list. */
  method MemberMatrix(ctx: Context, memberIds: seq<int>, speeches: seq<Speech>) returns (x: seq<seq<real>>)
    requires ctx.Valid() && Distinct(memberIds) && ctx.memberRows == MemberRows(memberIds)
    ensures |x| == |memberIds| && forall r :: 0 <= r < |x| ==> |x[r]| == ctx.width
    ensures forall r: nat, c: nat :: r < |x| && c < ctx.width ==> x[r][c] == RowAverage(ctx, speeches, r, c)
  {
    var rows, cols, data, speechCounts := SumSpeechVectors(ctx, memberIds, speeches);
    var sum := Dense(data, rows, cols, |memberIds|, ctx.width);
    assert forall i :: 0 <= i < |memberIds| ==> memberIds[i] in speechCounts by {
      forall i | 0 <= i < |memberIds| ensures memberIds[i] in speechCounts {
        assert memberIds[i] in memberIds;
      }
    }
    x := AverageRows(ctx, speeches, memberIds, speechCounts, sum);
  }

  /** `_fetch_member_keyword_matrix`: without a vocabulary, no members and
      a 0 x 0 matrix; without members, a 0 x |vocabulary| matrix;
      otherwise one row per member id, one column per vocabulary keyword,
      and every cell the member's summed normalised speech vectors times
      `1 / count`. The matrix is given by its rows and its column count. */
  method FetchMemberKeywordMatrix(table: seq<Lsi.KeywordRow>, speeches: seq<Speech>, norm: seq<real> -> real)
    returns (memberIds: seq<int>, x: seq<seq<real>>, numCols: nat)
    ensures Lsi.AllKeywords(table) == [] ==> memberIds == [] && numCols == 0
    ensures Lsi.AllKeywords(table) != [] ==> memberIds == MemberIds(table, speeches) && numCols == |Lsi.AllKeywords(table)|
    ensures |x| == |memberIds| && forall r :: 0 <= r < |x| ==> |x[r]| == numCols
    ensures forall r: nat, c: nat :: r < |x| && c < numCols ==>
      x[r][c] == RowAverage(MatrixContext(table, speeches, norm), speeches, r, c)
  {
    var vocab := Lsi.AllKeywords(table);
    if vocab == [] {
      return [], [], 0;
    }
    memberIds := MemberIds(table, speeches);
    if memberIds == [] {
      return [], [], |vocab|;
    }
    MemberIdsSpec(table, speeches);
    var ctx := MatrixContext(table, speeches, norm);
    x := MemberMatrix(ctx, memberIds, speeches);
    numCols := |vocab|;
  }

  // ---------------------------------------------------------------------
  // Pair emission.

  /** One row of `member_similarity_pairs`. */
  datatype Pair = Pair(member1: int, member2: int, score: real)

  /** The key of `member_similarity_pairs`: (member1_id, member2_id). */
  function Key(e: Pair): (int, int) {
    (e.member1, e.member2)
  }

  /** The table `member_similarity_pairs`. Its rows are keyed by
      (member1_id, member2_id), so an insert on an existing key replaces
      that row's score. */
  class SimilarityTable {
    var pairs: map<(int, int), real>

    /** The table as `CREATE TABLE IF NOT EXISTS` leaves it: with whatever
        rows it already holds. */
    constructor (existing: map<(int, int), real>)
      ensures pairs == existing
    {
      pairs := existing;
    }

    /** `INSERT OR REPLACE INTO member_similarity_pairs`. */
    method InsertOrReplace(member1: int, member2: int, score: real)
      modifies this
      ensures pairs == old(pairs)[(member1, member2) := score]
    {
      pairs := pairs[(member1, member2) := score];
    }
  }

  /** The table after a sequence of inserts, in order. */
  function Stored(before: map<(int, int), real>, inserts: seq<Pair>): map<(int, int), real> {
    if inserts == [] then before
    else
      var last := inserts[|inserts| - 1];
      Stored(before, inserts[..|inserts| - 1])[Key(last) := last.score]
  }

  /** `sims` for row `i`: the similarity of row `i` with every row, with
      the self-similarity set to 0. */
  function Similarities(cosine: (nat, nat) -> real, n: nat, i: nat): (sims: seq<real>)
    requires i < n
    ensures |sims| == n
  {
    seq(n, j requires 0 <= j < n => cosine(i, j))[i := 0.0]
  }

  /** How many neighbours are considered: `topk_per_member` when it is
      given and below `n - 1`, otherwise every row. */
  function CandidateCount(n: nat, topk: Option<nat>): (count: nat)
    ensures count <= n
  {
    match topk
    case Some(k) => if k < n - 1 then k else n
    case None => n
  }

  /** `idx`: the candidate rows by descending similarity. */
  function Candidates(sims: seq<real>, topk: Option<nat>): (idx: seq<nat>)
    ensures |idx| == CandidateCount(|sims|, topk)
    ensures forall t :: 0 <= t < |idx| ==> idx[t] < |sims|
  {
    TopIds(sims, CandidateCount(|sims|, topk))
  }

  /** The pairs row `i` writes, in candidate order: a candidate `j` is
      written when `j > i` and its score is at least `min_score`. */
  function RowPairs(memberIds: seq<int>, i: nat, sims: seq<real>, cands: seq<nat>, minScore: real): (ps: seq<Pair>)
    requires i < |memberIds| && |sims| == |memberIds|
    requires forall t :: 0 <= t < |cands| ==> cands[t] < |sims|
    ensures |ps| <= |cands|
    ensures forall e :: e in ps ==>
      (exists t :: 0 <= t < |cands| && i < cands[t] && sims[cands[t]] >= minScore
        && e == Pair(memberIds[i], memberIds[cands[t]], sims[cands[t]]))
  {
    if cands == [] then []
    else
      var init, j := cands[..|cands| - 1], cands[|cands| - 1];
      var rest := RowPairs(memberIds, i, sims, init, minScore);
      assert forall t :: 0 <= t < |init| ==> init[t] == cands[t];
      if j > i && sims[j] >= minScore then rest + [Pair(memberIds[i], memberIds[j], sims[j])] else rest
  }

  /** The pairs row `i` writes. */
  function RowOf(memberIds: seq<int>, cosine: (nat, nat) -> real, minScore: real, topk: Option<nat>, i: nat): seq<Pair>
    requires i < |memberIds|
  {
    var sims := Similarities(cosine, |memberIds|, i);
    RowPairs(memberIds, i, sims, Candidates(sims, topk), minScore)
  }

  /** The pairs the first `rows` rows write, row after row. */
  function AllPairs(memberIds: seq<int>, cosine: (nat, nat) -> real, minScore: real, topk: Option<nat>, rows: nat): seq<Pair>
    requires rows <= |memberIds|
  {
    if rows == 0 then [] else AllPairs(memberIds, cosine, minScore, topk, rows - 1) + RowOf(memberIds, cosine, minScore, topk, rows - 1)
  }

  /** Everything `compute_and_store_all_pairs` writes: nothing when there
      are fewer than two members. */
  function Emitted(memberIds: seq<int>, cosine: (nat, nat) -> real, minScore: real, topk: Option<nat>): seq<Pair> {
    if |memberIds| < 2 then [] else AllPairs(memberIds, cosine, minScore, topk, |memberIds|)
  }

  /** The emission loop of `compute_and_store_all_pairs`, for one row. */
  method EmitRow(table: SimilarityTable, memberIds: seq<int>, i: nat, sims: seq<real>, idx: seq<nat>, minScore: real)
    returns (written: nat)
    requires i < |memberIds| && |sims| == |memberIds|
    requires forall t :: 0 <= t < |idx| ==> idx[t] < |sims|
    modifies table
    ensures written == |RowPairs(memberIds, i, sims, idx, minScore)|
    ensures table.pairs == Stored(old(table.pairs), RowPairs(memberIds, i, sims, idx, minScore))
  {
    written := 0;
    var m1 := memberIds[i];
    for t := 0 to |idx|
      invariant written == |RowPairs(memberIds, i, sims, idx[..t], minScore)|
      invariant table.pairs == Stored(old(table.pairs), RowPairs(memberIds, i, sims, idx[..t], minScore))
    {
      var j := idx[t];
      assert idx[..t + 1][..t] == idx[..t] && idx[..t + 1][t] == j;
      if j <= i {
        continue;
      }
      var score := sims[j];
      if score < minScore {
        continue;
      }
      var m2 := memberIds[j];
      table.InsertOrReplace(m1, m2, score);
      written := written + 1;
    }
    assert idx[..|idx|] == idx;
  }

  lemma {:induction false} StoredAppend(before: map<(int, int), real>, a: seq<Pair>, b: seq<Pair>)
    ensures Stored(before, a + b) == Stored(Stored(before, a), b)
  {
    if b == [] {
      assert a + b == a;
    } else {
      StoredAppend(before, a, b[..|b| - 1]);
      assert (a + b)[..|a + b| - 1] == a + b[..|b| - 1];
    }
  }

  /** `compute_and_store_all_pairs`: with fewer than two members nothing is
      written and 0 is returned; otherwise every row emits its pairs in
      turn, each one an `INSERT OR REPLACE`, and the count of inserts is
      returned. */
  method ComputeAndStoreAllPairs(table: SimilarityTable, memberIds: seq<int>, cosine: (nat, nat) -> real,
                                 minScore: real, topk: Option<nat>) returns (written: nat)
    modifies table
    ensures written == |Emitted(memberIds, cosine, minScore, topk)|
    ensures table.pairs == Stored(old(table.pairs), Emitted(memberIds, cosine, minScore, topk))
  {
    if |memberIds| < 2 {
      return 0;
    }
    written := EmitAllRows(table, memberIds, cosine, minScore, topk);
  }

  /** The row loop of `compute_and_store_all_pairs`: every row emits its
      pairs in turn, and the inserts are counted. */
  method EmitAllRows(table: SimilarityTable, memberIds: seq<int>, cosine: (nat, nat) -> real,
                     minScore: real, topk: Option<nat>) returns (written: nat)
    modifies table
    ensures written == |AllPairs(memberIds, cosine, minScore, topk, |memberIds|)|
    ensures table.pairs == Stored(old(table.pairs), AllPairs(memberIds, cosine, minScore, topk, |memberIds|))
  {
    written := 0;
    ghost var start := table.pairs;
    ghost var emitted: seq<Pair> := [];
    for i := 0 to |memberIds|
      invariant emitted == AllPairs(memberIds, cosine, minScore, topk, i)
      invariant written == |emitted|
      invariant table.pairs == Stored(start, emitted)
    {
      var count := EmitMemberRow(table, memberIds, cosine, minScore, topk, i);
      written := written + count;
      ghost var row := RowOf(memberIds, cosine, minScore, topk, i);
      StoredAppend(start, emitted, row);
      emitted := emitted + row;
    }
  }

  /** One row of the loop: `sims` with the self-similarity set to 0, `idx`
      its candidates by descending similarity, then the emission. */
  method EmitMemberRow(table: SimilarityTable, memberIds: seq<int>, cosine: (nat, nat) -> real,
                       minScore: real, topk: Option<nat>, i: nat) returns (count: nat)
    requires i < |memberIds|
    modifies table
    ensures count == |RowOf(memberIds, cosine, minScore, topk, i)|
    ensures table.pairs == Stored(old(table.pairs), RowOf(memberIds, cosine, minScore, topk, i))
  {
    var sims := Similarities(cosine, |memberIds|, i);
    var idx := Candidates(sims, topk);
    count := EmitRow(table, memberIds, i, sims, idx, minScore);
  }

  // ---------------------------------------------------------------------
  // What the emission writes.

  /** Row `i` writes `e` for candidate `j`: `j` comes after `i`, is among
      row `i`'s candidates, and its similarity reaches `min_score`. */
  ghost predicate EmittedBy(memberIds: seq<int>, cosine: (nat, nat) -> real, minScore: real, topk: Option<nat>,
                            i: nat, j: nat, e: Pair)
  {
    i < j < |memberIds| &&
    var sims := Similarities(cosine, |memberIds|, i);
    j in Candidates(sims, topk) && sims[j] >= minScore && e == Pair(memberIds[i], memberIds[j], sims[j])
  }

  /** No key occurs twice in `ps`. */
  ghost predicate DistinctKeys(ps: seq<Pair>) {
    forall a, b :: 0 <= a < b < |ps| ==> Key(ps[a]) != Key(ps[b])
  }

  /** The candidates of a row: valid, distinct rows in descending
      similarity; no row left out is more similar than one taken; and every
      row when there is no effective `topk`. */
  lemma CandidatesSpec(sims: seq<real>, topk: Option<nat>)
    ensures Distinct(Candidates(sims, topk))
    ensures forall a, b :: 0 <= a < b < |Candidates(sims, topk)| ==>
      sims[Candidates(sims, topk)[a]] >= sims[Candidates(sims, topk)[b]]
    ensures forall j, c :: j in Candidates(sims, topk) && 0 <= c < |sims| && c !in Candidates(sims, topk) ==>
      sims[j] >= sims[c]
    ensures CandidateCount(|sims|, topk) == |sims| ==> forall c :: 0 <= c < |sims| ==> c in Candidates(sims, topk)
  {
    TopIdsSpec(sims, CandidateCount(|sims|, topk));
  }

  lemma {:induction false} RowPairsComplete(memberIds: seq<int>, i: nat, sims: seq<real>, cands: seq<nat>, minScore: real, j: nat)
    requires i < |memberIds| && |sims| == |memberIds|
    requires forall t :: 0 <= t < |cands| ==> cands[t] < |sims|
    requires j in cands && i < j && sims[j] >= minScore
    ensures Pair(memberIds[i], memberIds[j], sims[j]) in RowPairs(memberIds, i, sims, cands, minScore)
  {
    var init := cands[..|cands| - 1];
    if cands[|cands| - 1] != j {
      assert j in init by {
        var t :| 0 <= t < |cands| && cands[t] == j;
        assert init[t] == j;
      }
      RowPairsComplete(memberIds, i, sims, init, minScore, j);
    }
  }

  lemma {:induction false} RowPairsDistinct(memberIds: seq<int>, i: nat, sims: seq<real>, cands: seq<nat>, minScore: real)
    requires i < |memberIds| && |sims| == |memberIds|
    requires forall t :: 0 <= t < |cands| ==> cands[t] < |sims|
    requires Distinct(memberIds) && Distinct(cands)
    ensures DistinctKeys(RowPairs(memberIds, i, sims, cands, minScore))
  {
    if cands != [] {
      var init, j := cands[..|cands| - 1], cands[|cands| - 1];
      RowPairsDistinct(memberIds, i, sims, init, minScore);
      var rest := RowPairs(memberIds, i, sims, init, minScore);
      if j > i && sims[j] >= minScore {
        var ps := rest + [Pair(memberIds[i], memberIds[j], sims[j])];
        forall a | 0 <= a < |rest| ensures Key(rest[a]) != Key(ps[|rest|]) {
          assert rest[a] in rest;
          var t :| 0 <= t < |init| && i < init[t] && sims[init[t]] >= minScore
            && rest[a] == Pair(memberIds[i], memberIds[init[t]], sims[init[t]]);
          assert init[t] == cands[t] != j;
        }
      }
    }
  }

  lemma DistinctKeysConcat(a: seq<Pair>, b: seq<Pair>)
    requires DistinctKeys(a) && DistinctKeys(b)
    requires forall x, y :: x in a && y in b ==> Key(x) != Key(y)
    ensures DistinctKeys(a + b)
  {
    forall p, q | 0 <= p < q < |a + b| ensures Key((a + b)[p]) != Key((a + b)[q]) {
      if p < |a| && q >= |a| {
        assert (a + b)[p] in a && (a + b)[q] in b;
      }
    }
  }

  /** Row `i` writes exactly the pairs `EmittedBy` describes for `i`. */
  lemma RowPairsSpec(memberIds: seq<int>, cosine: (nat, nat) -> real, minScore: real, topk: Option<nat>, i: nat)
    requires i < |memberIds|
    ensures forall e :: e in RowPairs(memberIds, i, Similarities(cosine, |memberIds|, i),
                                      Candidates(Similarities(cosine, |memberIds|, i), topk), minScore) <==>
      exists j: nat :: EmittedBy(memberIds, cosine, minScore, topk, i, j, e)
  {
    var sims := Similarities(cosine, |memberIds|, i);
    var cands := Candidates(sims, topk);
    forall e | e in RowPairs(memberIds, i, sims, cands, minScore)
      ensures exists j: nat :: EmittedBy(memberIds, cosine, minScore, topk, i, j, e)
    {
      var t :| 0 <= t < |cands| && i < cands[t] && sims[cands[t]] >= minScore
        && e == Pair(memberIds[i], memberIds[cands[t]], sims[cands[t]]);
      assert EmittedBy(memberIds, cosine, minScore, topk, i, cands[t], e);
    }
    forall e, j: nat | EmittedBy(memberIds, cosine, minScore, topk, i, j, e)
      ensures e in RowPairs(memberIds, i, sims, cands, minScore)
    {
      RowPairsComplete(memberIds, i, sims, cands, minScore, j);
    }
  }

  /** The first `rows` rows write exactly the pairs `EmittedBy` describes. */
  lemma {:induction false} AllPairsMembers(memberIds: seq<int>, cosine: (nat, nat) -> real, minScore: real, topk: Option<nat>, rows: nat)
    requires rows <= |memberIds|
    ensures forall e :: e in AllPairs(memberIds, cosine, minScore, topk, rows) <==>
      exists i: nat, j: nat :: i < rows && EmittedBy(memberIds, cosine, minScore, topk, i, j, e)
  {
    if rows > 0 {
      var n, i := |memberIds|, rows - 1;
      AllPairsMembers(memberIds, cosine, minScore, topk, i);
      RowPairsSpec(memberIds, cosine, minScore, topk, i);
      var sims := Similarities(cosine, n, i);
      var done := AllPairs(memberIds, cosine, minScore, topk, i);
      var row := RowPairs(memberIds, i, sims, Candidates(sims, topk), minScore);
      assert AllPairs(memberIds, cosine, minScore, topk, rows) == done + row;
      forall e | e in done + row
        ensures exists i': nat, j: nat :: i' < rows && EmittedBy(memberIds, cosine, minScore, topk, i', j, e)
      {
        if e in done {
          var i': nat, j: nat :| i' < i && EmittedBy(memberIds, cosine, minScore, topk, i', j, e);
          assert i' < rows;
        } else {
          var j: nat :| EmittedBy(memberIds, cosine, minScore, topk, i, j, e);
          assert i < rows;
        }
      }
      forall e, i': nat, j: nat | i' < rows && EmittedBy(memberIds, cosine, minScore, topk, i', j, e)
        ensures e in done + row
      {
        if i' == i {
          assert e in row;
        } else {
          assert e in done;
        }
      }
    }
  }

  /** With distinct member ids, the first `rows` rows never write the
      same key twice. */
  lemma {:induction false} AllPairsDistinct(memberIds: seq<int>, cosine: (nat, nat) -> real, minScore: real, topk: Option<nat>, rows: nat)
    requires rows <= |memberIds| && Distinct(memberIds)
    ensures DistinctKeys(AllPairs(memberIds, cosine, minScore, topk, rows))
  {
    if rows > 0 {
      var n, i := |memberIds|, rows - 1;
      AllPairsDistinct(memberIds, cosine, minScore, topk, i);
      AllPairsMembers(memberIds, cosine, minScore, topk, i);
      RowPairsSpec(memberIds, cosine, minScore, topk, i);
      var sims := Similarities(cosine, n, i);
      var cands := Candidates(sims, topk);
      var done := AllPairs(memberIds, cosine, minScore, topk, i);
      var row := RowPairs(memberIds, i, sims, cands, minScore);
      assert AllPairs(memberIds, cosine, minScore, topk, rows) == done + row;
      CandidatesSpec(sims, topk);
      RowPairsDistinct(memberIds, i, sims, cands, minScore);
      forall x, y | x in done && y in row ensures Key(x) != Key(y) {
        var i': nat, j: nat :| i' < i && EmittedBy(memberIds, cosine, minScore, topk, i', j, x);
        var j': nat :| EmittedBy(memberIds, cosine, minScore, topk, i, j', y);
        assert x.member1 == memberIds[i'] != memberIds[i] == y.member1;
      }
      DistinctKeysConcat(done, row);
    }
  }

  /** What `compute_and_store_all_pairs` writes: exactly the pairs
      (member `i`, member `j`, similarity) with `i < j`, `j` among row
      `i`'s candidates and the similarity at least `min_score`, and no key
      twice when the member ids are distinct. With fewer than two members
      nothing qualifies. */
  lemma EmittedSpec(memberIds: seq<int>, cosine: (nat, nat) -> real, minScore: real, topk: Option<nat>)
    ensures forall e :: e in Emitted(memberIds, cosine, minScore, topk) <==>
      exists i: nat, j: nat :: EmittedBy(memberIds, cosine, minScore, topk, i, j, e)
    ensures Distinct(memberIds) ==> DistinctKeys(Emitted(memberIds, cosine, minScore, topk))
  {
    AllPairsMembers(memberIds, cosine, minScore, topk, |memberIds|);
    if Distinct(memberIds) {
      AllPairsDistinct(memberIds, cosine, minScore, topk, |memberIds|);
    }
  }

  /** With ascending member ids every written pair has `member1 < member2`
      and a score of at least `min_score`. */
  lemma EmittedOrdered(memberIds: seq<int>, cosine: (nat, nat) -> real, minScore: real, topk: Option<nat>)
    requires forall a, b :: 0 <= a < b < |memberIds| ==> memberIds[a] < memberIds[b]
    ensures forall e :: e in Emitted(memberIds, cosine, minScore, topk) ==> e.member1 < e.member2 && e.score >= minScore
  {
    EmittedSpec(memberIds, cosine, minScore, topk);
  }

  /** Without an effective `topk` (none given, or `topk >= n - 1`), every
      pair `i < j` whose similarity reaches `min_score` is written, and
      with distinct member ids exactly once. */
  lemma EmittedEveryPair(memberIds: seq<int>, cosine: (nat, nat) -> real, minScore: real, topk: Option<nat>)
    requires CandidateCount(|memberIds|, topk) == |memberIds|
    ensures forall i, j :: 0 <= i < j < |memberIds| && cosine(i, j) >= minScore ==>
      Pair(memberIds[i], memberIds[j], cosine(i, j)) in Emitted(memberIds, cosine, minScore, topk)
  {
    EmittedSpec(memberIds, cosine, minScore, topk);
    forall i, j | 0 <= i < j < |memberIds| && cosine(i, j) >= minScore
      ensures Pair(memberIds[i], memberIds[j], cosine(i, j)) in Emitted(memberIds, cosine, minScore, topk)
    {
      var sims := Similarities(cosine, |memberIds|, i);
      CandidatesSpec(sims, topk);
      assert EmittedBy(memberIds, cosine, minScore, topk, i, j, Pair(memberIds[i], memberIds[j], cosine(i, j)));
    }
  }

  /** With `topk = k < n - 1`, row `i` has exactly `k` candidates. Row `i`
      itself (similarity 0) may be one of them, so at most `k` other rows
      are considered. A partner `j` is written only when no row left out
      is more similar to `i` than `j`. */
  lemma EmittedTopK(memberIds: seq<int>, cosine: (nat, nat) -> real, minScore: real, k: nat)
    requires k < |memberIds| - 1
    ensures forall i: nat, j: nat, e :: EmittedBy(memberIds, cosine, minScore, Some(k), i, j, e) ==>
      |Candidates(Similarities(cosine, |memberIds|, i), Some(k))| == k
      && forall c :: 0 <= c < |memberIds| && c != i && c !in Candidates(Similarities(cosine, |memberIds|, i), Some(k)) ==>
        cosine(i, c) <= cosine(i, j)
  {
    forall i: nat, j: nat, e | EmittedBy(memberIds, cosine, minScore, Some(k), i, j, e)
      ensures forall c :: 0 <= c < |memberIds| && c != i && c !in Candidates(Similarities(cosine, |memberIds|, i), Some(k)) ==>
        cosine(i, c) <= cosine(i, j)
    {
      CandidatesSpec(Similarities(cosine, |memberIds|, i), Some(k));
    }
  }

  // ---------------------------------------------------------------------
  // The table after the inserts.

  /** Inserting in order overrides the old rows with the last score written
      per key. */
  lemma {:induction false} StoredOverride(before: map<(int, int), real>, ps: seq<Pair>)
    ensures Stored(before, ps) == before + Stored(map[], ps)
  {
    if ps != [] {
      StoredOverride(before, ps[..|ps| - 1]);
    }
  }

  /** Running the emission again on the table it produced changes nothing. */
  lemma StoredRerun(before: map<(int, int), real>, ps: seq<Pair>)
    ensures Stored(Stored(before, ps), ps) == Stored(before, ps)
  {
    StoredOverride(before, ps);
    StoredOverride(Stored(before, ps), ps);
  }

  /** A key no insert names keeps its old row, or stays absent. */
  lemma {:induction false} StoredUntouched(before: map<(int, int), real>, ps: seq<Pair>, key: (int, int))
    requires forall a :: 0 <= a < |ps| ==> Key(ps[a]) != key
    ensures key in Stored(before, ps) <==> key in before
    ensures key in before ==> Stored(before, ps)[key] == before[key]
  {
    if ps != [] {
      StoredUntouched(before, ps[..|ps| - 1], key);
    }
  }

  /** With no key inserted twice, every inserted pair is in the table with
      its own score. */
  lemma {:induction false} StoredValues(before: map<(int, int), real>, ps: seq<Pair>)
    requires DistinctKeys(ps)
    ensures forall a :: 0 <= a < |ps| ==> Key(ps[a]) in Stored(before, ps) && Stored(before, ps)[Key(ps[a])] == ps[a].score
  {
    if ps != [] {
      var init := ps[..|ps| - 1];
      StoredValues(before, init);
    }
  }

  /** After `compute_and_store_all_pairs` with distinct member ids, every
      written pair is in the table with its own score, and every key it did
      not write keeps its old row or stays absent. */
  lemma TableAfterEmission(before: map<(int, int), real>, memberIds: seq<int>, cosine: (nat, nat) -> real,
                           minScore: real, topk: Option<nat>)
    requires Distinct(memberIds)
    ensures forall e :: e in Emitted(memberIds, cosine, minScore, topk) ==>
      Key(e) in Stored(before, Emitted(memberIds, cosine, minScore, topk))
      && Stored(before, Emitted(memberIds, cosine, minScore, topk))[Key(e)] == e.score
    ensures forall key :: (forall e :: e in Emitted(memberIds, cosine, minScore, topk) ==> Key(e) != key) ==>
      (key in Stored(before, Emitted(memberIds, cosine, minScore, topk)) <==> key in before)
  {
    var ps := Emitted(memberIds, cosine, minScore, topk);
    EmittedSpec(memberIds, cosine, minScore, topk);
    StoredValues(before, ps);
    forall e | e in ps ensures Key(e) in Stored(before, ps) && Stored(before, ps)[Key(e)] == e.score {
      var a :| 0 <= a < |ps| && ps[a] == e;
    }
    forall key | forall e :: e in ps ==> Key(e) != key
      ensures key in Stored(before, ps) <==> key in before
    {
      assert forall a :: 0 <= a < |ps| ==> ps[a] in ps;
      StoredUntouched(before, ps, key);
    }
  }
}
