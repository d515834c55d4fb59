/** TF-IDF scoring of a query against every document: each query token
    adds `(1 + log tf) * log(1 + N / df)` to every document in its posting
    list, and each document hit is then divided by the Euclidean length of
    its own TF-IDF vector. `log` and `sqrt` are parameters: the model
    assumes of them only what `IsLog` and `IsSqrt` state. */
module TfIdf {
  import opened Wrappers
  import opened Text
  import opened InvertedIndex

  /** What the proofs use of `math.log`: `log 1 = 0`, monotone on the
      positive reals, positive above 1. */
  ghost predicate IsLog(log: real -> real) {
    && log(1.0) == 0.0
    && (forall x, y :: 0.0 < x <= y ==> log(x) <= log(y))
    && (forall x :: x > 1.0 ==> log(x) > 0.0)
  }

  /** What the model uses of `math.sqrt`: positive on positive reals. */
  ghost predicate IsSqrt(sqrt: real -> real) {
    forall x :: x > 0.0 ==> sqrt(x) > 0.0
  }

  /** Every document id in a posting list is a position `0..n-1` of the
      score list. */
  ghost predicate ValidDocIds(index: Index, n: nat) {
    forall w, d :: w in index && d in index[w] ==> 0 <= d < n
  }

  /** Word `w` has a posting for document `d`. */
  predicate Hit(index: Index, w: string, d: int) {
    w in index && d in index[w]
  }

  /** `log(1 + N / df)`, `df` the length of the word's posting list. */
  function Idf(index: Index, n: nat, log: real -> real, w: string): real
    requires w in index && index[w] != map[]
  {
    var docs := index[w];
    assert |docs| != 0 by { assert docs != map[]; }
    log(1.0 + (n as real) / (|docs| as real))
  }

  /** `1 + log tf`. */
  function TfWeight(log: real -> real, tf: nat): real {
    1.0 + log(tf as real)
  }

  /** `tf_weight * idf` for a word and a document in its posting list, 0
      when there is no such posting. */
  function Weight(index: Index, n: nat, log: real -> real, w: string, d: int): real {
    if Hit(index, w, d) then TfWeight(log, index[w][d]) * Idf(index, n, log, w) else 0.0
  }

  /** The query part of the score of document `d`: the weights of every
      query token, repeats included. */
  function RawScore(index: Index, n: nat, log: real -> real, query: seq<string>, d: int): real {
    if query == [] then 0.0
    else RawScore(index, n, log, query[..|query| - 1], d) + Weight(index, n, log, query[|query| - 1], d)
  }

  /** The words of document `d` as the scorer reads them:
      `str(cell).split()`. */
  function DocWords(cells: seq<Option<string>>, d: nat): seq<string>
    requires d < |cells|
  {
    Split(SpeechText(cells[d]))
  }

  /** The squared length of document `d`'s TF-IDF vector, accumulated over
      every token occurrence of its text. */
  function DocLength(index: Index, n: nat, log: real -> real, words: seq<string>, d: int): real {
    if words == [] then 0.0
    else
      var w := Weight(index, n, log, words[|words| - 1], d);
      DocLength(index, n, log, words[..|words| - 1], d) + w * w
  }

  /** The final score of document `d`. */
  function Score(index: Index, cells: seq<Option<string>>, log: real -> real, sqrt: real -> real,
                 query: seq<string>, d: nat): real
    requires IsSqrt(sqrt) && d < |cells|
  {
    var n := |cells|;
    var raw := RawScore(index, n, log, query, d);
    if raw == 0.0 then 0.0
    else
      var len := DocLength(index, n, log, DocWords(cells, d), d);
      if len > 0.0 then raw / sqrt(len) else 0.0
  }

  // ---------------------------------------------------------------------
  // The scorer.

  lemma EmptyOrHasElement(s: set<int>)
    ensures s == {} || exists x :: x in s
  {
    if !exists x :: x in s {
      assert s == {};
    }
  }

  /** The body of the first pass for one query token present in the
      index: every document of its posting list gains
      `tf_weight * idf`, in the dictionary's iteration order. */
  method AddPostings(scores: array<real>, index: Index, word: string, log: real -> real)
    requires WellFormed(index) && ValidDocIds(index, scores.Length) && word in index
    modifies scores
    ensures forall d :: 0 <= d < scores.Length ==>
      scores[d] == old(scores[d]) + Weight(index, scores.Length, log, word, d)
  {
    var n := scores.Length;
    var docs := index[word];
    assert |docs| != 0 by { assert docs != map[]; }
    var idf := log(1.0 + (n as real) / (|docs| as real));
    assert idf == Idf(index, n, log, word);
    var pending := docs.Keys;
    while pending != {}
      invariant pending <= docs.Keys
      invariant forall d :: 0 <= d < n ==>
        scores[d] == old(scores[d]) + (if d in docs && d !in pending then Weight(index, n, log, word, d) else 0.0)
      decreases pending
    {
      EmptyOrHasElement(pending);
      var d :| d in pending;
      var tf := docs[d];
      var tfWeight := 1.0 + log(tf as real);
      scores[d] := scores[d] + tfWeight * idf;
      pending := pending - {d};
    }
  }

  /** The inner loop of the second pass: the squared weights of every
      token occurrence of document `d` added to `docLengths[d]`. */
  method AddDocLength(docLengths: array<real>, index: Index, log: real -> real, words: seq<string>, d: nat)
    requires WellFormed(index) && d < docLengths.Length
    modifies docLengths
    ensures docLengths[d] == old(docLengths[d]) + DocLength(index, docLengths.Length, log, words, d)
    ensures forall e :: 0 <= e < docLengths.Length && e != d ==> docLengths[e] == old(docLengths[e])
  {
    var n := docLengths.Length;
    var j := 0;
    while j < |words|
      invariant 0 <= j <= |words|
      invariant docLengths[d] == old(docLengths[d]) + DocLength(index, n, log, words[..j], d)
      invariant forall e :: 0 <= e < n && e != d ==> docLengths[e] == old(docLengths[e])
    {
      var word := words[j];
      assert words[..j + 1][..j] == words[..j];
      if word in index && d in index[word] {
        var tf := index[word][d];
        var tfWeight := 1.0 + log(tf as real);
        assert |index[word]| != 0 by { assert index[word] != map[]; }
        var idf := log(1.0 + (n as real) / (|index[word]| as real));
        docLengths[d] := docLengths[d] + (tfWeight * idf) * (tfWeight * idf);
      }
      j := j + 1;
    }
    assert words[..j] == words;
  }

  /** `compute_tf_idf_similarity`: one score per document position,
      computed by the two passes of the source (accumulate the query
      weights over the posting lists, then normalise every document hit,
      resetting to 0 a document whose length is not positive). */
  method ComputeTfIdfSimilarity(index: Index, cells: seq<Option<string>>, query: seq<string>,
                                log: real -> real, sqrt: real -> real) returns (scores: seq<real>)
    requires WellFormed(index) && ValidDocIds(index, |cells|)
    requires IsSqrt(sqrt)
    ensures |scores| == |cells|
    ensures forall d :: 0 <= d < |cells| ==> scores[d] == Score(index, cells, log, sqrt, query, d)
  {
    var n := |cells|;
    var acc := new real[n](_ => 0.0);
    var docLengths := new real[n](_ => 0.0);
    QueryPass(acc, index, query, log);
    NormalisePass(acc, docLengths, index, cells, query, log, sqrt);
    scores := acc[..];
  }

  /** The first pass of `compute_tf_idf_similarity`: the weights of every
      query token found in the index accumulated into zeroed scores. */
  method QueryPass(acc: array<real>, index: Index, query: seq<string>, log: real -> real)
    requires WellFormed(index) && ValidDocIds(index, acc.Length)
    requires forall d :: 0 <= d < acc.Length ==> acc[d] == 0.0
    modifies acc
    ensures forall d :: 0 <= d < acc.Length ==> acc[d] == RawScore(index, acc.Length, log, query, d)
  {
    var n := acc.Length;
    var i := 0;
    while i < |query|
      invariant 0 <= i <= |query|
      invariant forall d :: 0 <= d < n ==> acc[d] == RawScore(index, n, log, query[..i], d)
    {
      var word := query[i];
      assert query[..i + 1][..i] == query[..i];
      if word in index {
        AddPostings(acc, index, word, log);
      }
      i := i + 1;
    }
    assert query[..i] == query;
  }

  /** The second pass of `compute_tf_idf_similarity`: every document with
      a non-zero accumulated score is divided by the square root of its
      length, or reset to 0 when that length is not positive. */
  method NormalisePass(acc: array<real>, docLengths: array<real>, index: Index, cells: seq<Option<string>>,
                       query: seq<string>, log: real -> real, sqrt: real -> real)
    requires acc != docLengths && acc.Length == |cells| == docLengths.Length
    requires WellFormed(index) && IsSqrt(sqrt)
    requires forall e :: 0 <= e < acc.Length ==> acc[e] == RawScore(index, acc.Length, log, query, e)
    requires forall e :: 0 <= e < docLengths.Length ==> docLengths[e] == 0.0
    modifies acc, docLengths
    ensures forall e :: 0 <= e < acc.Length ==> acc[e] == Score(index, cells, log, sqrt, query, e)
  {
    var n := acc.Length;
    var d := 0;
    while d < n
      invariant 0 <= d <= n
      invariant forall e :: 0 <= e < d ==> acc[e] == Score(index, cells, log, sqrt, query, e)
      invariant forall e :: d <= e < n ==> acc[e] == RawScore(index, n, log, query, e)
      invariant forall e :: d <= e < n ==> docLengths[e] == 0.0
    {
      if acc[d] != 0.0 {
        AddDocLength(docLengths, index, log, DocWords(cells, d), d);
        if docLengths[d] > 0.0 {
          acc[d] := acc[d] / sqrt(docLengths[d]);
        } else {
          acc[d] := 0.0;
        }
      }
      d := d + 1;
    }
  }

  // ---------------------------------------------------------------------
  // Properties of the specification.

  /** The query part of a score adds up over a split of the query. */
  lemma {:induction false} RawScoreAppend(index: Index, n: nat, log: real -> real, a: seq<string>, b: seq<string>, d: int)
    ensures RawScore(index, n, log, a + b, d) == RawScore(index, n, log, a, d) + RawScore(index, n, log, b, d)
  {
    if b == [] {
      assert a + b == a;
    } else {
      var b' := b[..|b| - 1];
      RawScoreAppend(index, n, log, a, b', d);
      assert (a + b)[..|a + b| - 1] == a + b';
    }
  }

  /** A query token that is not in the index changes no score, wherever it
      stands in the query. */
  lemma AbsentTokenIgnored(index: Index, cells: seq<Option<string>>, log: real -> real, sqrt: real -> real,
                           before: seq<string>, word: string, after: seq<string>, d: nat)
    requires IsSqrt(sqrt) && d < |cells| && word !in index
    ensures Score(index, cells, log, sqrt, before + [word] + after, d) == Score(index, cells, log, sqrt, before + after, d)
  {
    var n := |cells|;
    RawScoreAppend(index, n, log, before + [word], after, d);
    RawScoreAppend(index, n, log, before, [word], d);
    RawScoreAppend(index, n, log, before, after, d);
    assert [word][..0] == [];
  }

  /** With `df >= 1`, `N` at least one more than every id and the log
      axioms, every idf is positive. */
  lemma IdfPositive(index: Index, n: nat, log: real -> real, w: string)
    requires IsLog(log) && WellFormed(index) && ValidDocIds(index, n) && w in index
    ensures Idf(index, n, log, w) > 0.0
  {
    var docs := index[w];
    EmptyOrHasKey(docs);
    var d :| d in docs;
    assert n >= 1;
    assert |docs| != 0 by { assert docs != map[]; }
    assert (n as real) / (|docs| as real) > 0.0;
  }

  /** Every weight is non-negative, and positive exactly on a posting. */
  lemma WeightSign(index: Index, n: nat, log: real -> real, w: string, d: int)
    requires IsLog(log) && WellFormed(index) && ValidDocIds(index, n)
    ensures Weight(index, n, log, w, d) >= 0.0
    ensures Weight(index, n, log, w, d) > 0.0 <==> Hit(index, w, d)
  {
    if Hit(index, w, d) {
      IdfPositive(index, n, log, w);
      var tf := index[w][d];
      assert tf >= 1;
      assert log(1.0) <= log(tf as real);
      assert TfWeight(log, tf) >= 1.0;
    }
  }

  /** The query part of a score is non-negative, and positive exactly when
      some query token has a posting for the document. */
  lemma {:induction false} RawScoreSign(index: Index, n: nat, log: real -> real, query: seq<string>, d: int)
    requires IsLog(log) && WellFormed(index) && ValidDocIds(index, n)
    ensures RawScore(index, n, log, query, d) >= 0.0
    ensures RawScore(index, n, log, query, d) > 0.0 <==> exists k :: 0 <= k < |query| && Hit(index, query[k], d)
  {
    if query != [] {
      var init, last := query[..|query| - 1], query[|query| - 1];
      RawScoreSign(index, n, log, init, d);
      WeightSign(index, n, log, last, d);
      if exists k :: 0 <= k < |init| && Hit(index, init[k], d) {
        var k :| 0 <= k < |init| && Hit(index, init[k], d);
        assert query[k] == init[k];
      }
      if exists k :: 0 <= k < |query| && Hit(index, query[k], d) {
        var k :| 0 <= k < |query| && Hit(index, query[k], d);
        if k < |init| {
          assert init[k] == query[k];
        }
      }
    }
  }

  /** Every score is non-negative; a document none of whose query tokens
      has a posting for it scores exactly 0, and a positive score comes
      from some token with a posting. */
  lemma ScoreSign(index: Index, cells: seq<Option<string>>, log: real -> real, sqrt: real -> real,
                  query: seq<string>, d: nat)
    requires IsLog(log) && IsSqrt(sqrt) && WellFormed(index) && ValidDocIds(index, |cells|) && d < |cells|
    ensures Score(index, cells, log, sqrt, query, d) >= 0.0
    ensures Score(index, cells, log, sqrt, query, d) > 0.0 ==> exists k :: 0 <= k < |query| && Hit(index, query[k], d)
    ensures (forall k :: 0 <= k < |query| ==> !Hit(index, query[k], d)) ==> Score(index, cells, log, sqrt, query, d) == 0.0
  {
    var n := |cells|;
    RawScoreSign(index, n, log, query, d);
    var raw := RawScore(index, n, log, query, d);
    var len := DocLength(index, n, log, DocWords(cells, d), d);
    if raw != 0.0 && len > 0.0 {
      assert sqrt(len) > 0.0;
      assert raw / sqrt(len) > 0.0;
    }
  }

  /** The document length adds up over a split of the text. */
  lemma {:induction false} DocLengthAppend(index: Index, n: nat, log: real -> real, a: seq<string>, b: seq<string>, d: int)
    ensures DocLength(index, n, log, a + b, d) == DocLength(index, n, log, a, d) + DocLength(index, n, log, b, d)
  {
    if b == [] {
      assert a + b == a;
    } else {
      var b' := b[..|b| - 1];
      DocLengthAppend(index, n, log, a, b', d);
      assert (a + b)[..|a + b| - 1] == a + b';
    }
  }

  /** A word written k times in a document adds its squared weight k
      times to the document's length, not once. */
  lemma {:induction false} DocLengthRepeats(index: Index, n: nat, log: real -> real, w: string, k: nat, d: int)
    ensures DocLength(index, n, log, seq(k, _ => w), d) == (k as real) * Weight(index, n, log, w, d) * Weight(index, n, log, w, d)
  {
    if k > 0 {
      DocLengthRepeats(index, n, log, w, k - 1, d);
      assert seq(k, _ => w)[..k - 1] == seq(k - 1, _ => w);
    }
  }

  lemma AddProduct(a: real, x: real, y: real)
    requires a >= 0.0 && x >= 0.0 && y >= 0.0
    ensures a + x * y >= 0.0
    ensures x > 0.0 && y > 0.0 ==> a + x * y > 0.0
  {
  }

  /** A document length is non-negative, and positive once some word of
      the text has a posting for the document. */
  lemma {:induction false} DocLengthSign(index: Index, n: nat, log: real -> real, words: seq<string>, d: int)
    requires IsLog(log) && WellFormed(index) && ValidDocIds(index, n)
    ensures DocLength(index, n, log, words, d) >= 0.0
    ensures (exists k :: 0 <= k < |words| && Hit(index, words[k], d)) ==> DocLength(index, n, log, words, d) > 0.0
  {
    if words != [] {
      var init, last := words[..|words| - 1], words[|words| - 1];
      DocLengthSign(index, n, log, init, d);
      WeightSign(index, n, log, last, d);
      var w := Weight(index, n, log, last, d);
      AddProduct(DocLength(index, n, log, init, d), w, w);
      if exists k :: 0 <= k < |words| && Hit(index, words[k], d) {
        var k :| 0 <= k < |words| && Hit(index, words[k], d);
        if k < |init| {
          assert init[k] == words[k];
        } else {
          assert last == words[k];
        }
      }
    }
  }

  /** When the index was built from the same documents (its counts for
      document `d` are the counts of `d`'s words), the reset to 0 of a
      zero-length document never fires for a document that was hit: the
      document scores positive exactly when one of the query tokens is
      among its words. */
  lemma ConsistentIndexScore(index: Index, cells: seq<Option<string>>, log: real -> real, sqrt: real -> real,
                             query: seq<string>, d: nat)
    requires IsLog(log) && IsSqrt(sqrt) && WellFormed(index) && ValidDocIds(index, |cells|) && d < |cells|
    requires forall w :: Lookup(index, w, d) == Count(DocWords(cells, d), w)
    ensures Score(index, cells, log, sqrt, query, d) > 0.0 <==> exists k :: 0 <= k < |query| && query[k] in DocWords(cells, d)
  {
    var n := |cells|;
    var words := DocWords(cells, d);
    ScoreSign(index, cells, log, sqrt, query, d);
    RawScoreSign(index, n, log, query, d);
    if exists k :: 0 <= k < |query| && query[k] in words {
      var k :| 0 <= k < |query| && query[k] in words;
      assert Lookup(index, query[k], d) > 0;
      assert Hit(index, query[k], d);
      var m :| 0 <= m < |words| && words[m] == query[k];
      DocLengthSign(index, n, log, words, d);
      var raw := RawScore(index, n, log, query, d);
      var len := DocLength(index, n, log, words, d);
      assert sqrt(len) > 0.0;
      assert raw / sqrt(len) > 0.0;
    }
    if Score(index, cells, log, sqrt, query, d) > 0.0 {
      var k :| 0 <= k < |query| && Hit(index, query[k], d);
      assert Lookup(index, query[k], d) > 0;
    }
  }
}
