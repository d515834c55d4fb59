/** The inverse index catalogue: word -> {document id -> term frequency},
    built from the cleaned speeches in one pass over the rows. */
module InvertedIndex {
  import opened Wrappers
  import opened Text

  /** One row of the cleaned dataset: its `document_id` and its
      `cleaned_speech` cell, `None` when the cell is missing (NaN). The
      cleaner writes an empty speech as an empty CSV cell, which reads back
      as NaN, so an empty cleaned speech arrives here as `None`. */
  datatype Row = Row(docId: int, cleanedSpeech: Option<string>)

  /** doc id -> number of occurrences of the word in that document. */
  type Postings = map<int, nat>

  /** word -> postings. */
  type Index = map<string, Postings>

  /** `str(row.get("cleaned_speech", ""))`: a missing cell is NaN, whose
      text is "nan". */
  function SpeechText(cell: Option<string>): string {
    cell.GetOr("nan")
  }

  /** `str(...).strip().split()`: the words a row contributes. */
  function Words(row: Row): seq<string> {
    Split(Strip(SpeechText(row.cleanedSpeech)))
  }

  /** Number of occurrences of `w` among the words of every row whose
      document id is `d`. */
  function Occurrences(rows: seq<Row>, w: string, d: int): nat {
    if rows == [] then 0
    else
      var last := rows[|rows| - 1];
      Occurrences(rows[..|rows| - 1], w, d) + (if last.docId == d then Count(Words(last), w) else 0)
  }

  /** Total number of words over all rows. */
  function TotalWords(rows: seq<Row>): nat {
    if rows == [] then 0 else TotalWords(rows[..|rows| - 1]) + |Words(rows[|rows| - 1])|
  }

  /** The stored frequency of `w` in `d`, 0 when there is no posting. */
  function Lookup(index: Index, w: string, d: int): nat {
    if w in index && d in index[w] then index[w][d] else 0
  }

  /** Every word has at least one posting and every stored count is >= 1. */
  ghost predicate WellFormed(index: Index) {
    forall w :: w in index ==> index[w] != map[] && forall d :: d in index[w] ==> index[w][d] >= 1
  }

  // ---------------------------------------------------------------------
  // Sums of map values, for "all counts add up to all words".

  ghost function SumValues<K(!new)>(m: map<K, nat>): nat
    decreases |m|
  {
    if m == map[] then 0
    else
      var k :| k in m;
      m[k] + SumValues(m - {k})
  }

  lemma {:induction false} SumValuesRemove<K(!new)>(m: map<K, nat>, k: K)
    requires k in m
    ensures SumValues(m) == m[k] + SumValues(m - {k})
    decreases |m|
  {
    var j :| j in m && SumValues(m) == m[j] + SumValues(m - {j});
    if j != k {
      var mj, mk := m - {j}, m - {k};
      assert |mj| < |m| && k in mj;
      SumValuesRemove(mj, k);
      assert |mk| < |m| && j in mk;
      SumValuesRemove(mk, j);
      assert mj - {k} == mk - {j};
    }
  }

  lemma SumValuesUpdate<K(!new)>(m: map<K, nat>, k: K, v: nat)
    ensures SumValues(m[k := v]) == SumValues(m) - (if k in m then m[k] else 0) + v
  {
    var m' := m[k := v];
    SumValuesRemove(m', k);
    assert m' - {k} == m - {k};
    if k in m {
      SumValuesRemove(m, k);
    } else {
      assert m - {k} == m;
    }
  }

  /** The sum of the counts of each word. */
  ghost function Totals(index: Index): (t: map<string, nat>)
    ensures t.Keys == index.Keys
    ensures forall w :: w in t ==> t[w] == SumValues(index[w])
  {
    map w | w in index :: SumValues(index[w])
  }

  /** Sum of all counts over all postings. */
  ghost function TotalCount(index: Index): nat {
    SumValues(Totals(index))
  }

  // ---------------------------------------------------------------------
  // One occurrence added.

  /** What the three branches of the counting step leave behind. */
  ghost predicate OneMore(before: Index, after: Index, word: string, docId: int) {
    after == before[word := (if word in before then before[word] else map[])[docId := Lookup(before, word, docId) + 1]]
  }

  lemma OneMoreWellFormed(before: Index, after: Index, word: string, docId: int)
    requires WellFormed(before) && OneMore(before, after, word, docId)
    ensures WellFormed(after)
  {
    forall w | w in after
      ensures after[w] != map[] && forall d :: d in after[w] ==> after[w][d] >= 1
    {
      if w == word {
        assert docId in after[w];
      } else {
        assert after[w] == before[w];
      }
    }
  }

  lemma OneMoreLookup(before: Index, after: Index, word: string, docId: int)
    requires OneMore(before, after, word, docId)
    ensures forall w, d :: Lookup(after, w, d) == Lookup(before, w, d) + (if w == word && d == docId then 1 else 0)
  {
    forall w, d
      ensures Lookup(after, w, d) == Lookup(before, w, d) + (if w == word && d == docId then 1 else 0)
    {
      if w != word {
        assert (w in after) == (w in before);
        if w in after { assert after[w] == before[w]; }
      }
    }
  }

  lemma OneMoreTotal(before: Index, after: Index, word: string, docId: int)
    requires OneMore(before, after, word, docId)
    ensures TotalCount(after) == TotalCount(before) + 1
  {
    OneMorePostingsSum(before, after, word, docId);
    OneMoreTotals(before, after, word, docId);
    SumValuesUpdate(Totals(before), word, SumValues(after[word]));
  }

  lemma OneMorePostingsSum(before: Index, after: Index, word: string, docId: int)
    requires OneMore(before, after, word, docId)
    ensures word in after
    ensures SumValues(after[word]) == (if word in before then SumValues(before[word]) else 0) + 1
  {
    var p: Postings := if word in before then before[word] else map[];
    assert Lookup(before, word, docId) == if docId in p then p[docId] else 0;
    SumValuesUpdate(p, docId, Lookup(before, word, docId) + 1);
  }

  lemma OneMoreTotals(before: Index, after: Index, word: string, docId: int)
    requires OneMore(before, after, word, docId)
    ensures word in after && Totals(after) == Totals(before)[word := SumValues(after[word])]
  {
    forall w | w in after && w != word ensures Totals(after)[w] == Totals(before)[w] {
      assert after[w] == before[w];
    }
  }

  /** One more occurrence of `word` in `docId`: still well formed, one
      more count at (word, docId) and nowhere else, one more in total. */
  lemma OneMoreFacts(before: Index, after: Index, word: string, docId: int)
    requires WellFormed(before) && OneMore(before, after, word, docId)
    ensures WellFormed(after)
    ensures forall w, d :: Lookup(after, w, d) == Lookup(before, w, d) + (if w == word && d == docId then 1 else 0)
    ensures TotalCount(after) == TotalCount(before) + 1
  {
    OneMoreWellFormed(before, after, word, docId);
    OneMoreLookup(before, after, word, docId);
    OneMoreTotal(before, after, word, docId);
  }

  lemma CountSnoc(tokens: seq<string>, j: nat)
    requires j < |tokens|
    ensures forall w :: Count(tokens[..j + 1], w) == Count(tokens[..j], w) + (if tokens[j] == w then 1 else 0)
  {
    assert tokens[..j + 1][..j] == tokens[..j];
  }

  lemma OccurrencesSnoc(rows: seq<Row>, i: nat)
    requires i < |rows|
    ensures forall w, d :: Occurrences(rows[..i + 1], w, d) == Occurrences(rows[..i], w, d) + (if rows[i].docId == d then Count(Words(rows[i]), w) else 0)
    ensures TotalWords(rows[..i + 1]) == TotalWords(rows[..i]) + |Words(rows[i])|
  {
    assert rows[..i + 1][..i] == rows[..i];
  }

  /** One occurrence of `word` in `docId` counted, by the three branches
      of the source (new word, known word and document, known word in a
      new document). */
  method AddOccurrence(before: Index, word: string, docId: int) returns (after: Index)
    ensures OneMore(before, after, word, docId)
  {
    if word !in before {
      after := before[word := map[docId := 1]];
      assert map[docId := 1] == map[][docId := Lookup(before, word, docId) + 1];
    } else {
      if docId in before[word] {
        after := before[word := before[word][docId := before[word][docId] + 1]];
      } else {
        after := before[word := before[word][docId := 1]];
      }
    }
  }

  /** The loop invariant of `CountWords` after `words[..j]`. */
  ghost predicate CountedPrefix(index0: Index, index: Index, docId: int, words: seq<string>, j: nat)
    requires j <= |words|
  {
    && WellFormed(index)
    && (forall w, d :: Lookup(index, w, d) == Lookup(index0, w, d) + (if d == docId then Count(words[..j], w) else 0))
    && TotalCount(index) == TotalCount(index0) + j
  }

  lemma CountStep(index0: Index, before: Index, after: Index, docId: int, words: seq<string>, j: nat)
    requires j < |words| && CountedPrefix(index0, before, docId, words, j)
    requires OneMore(before, after, words[j], docId)
    ensures CountedPrefix(index0, after, docId, words, j + 1)
  {
    OneMoreFacts(before, after, words[j], docId);
    CountSnoc(words, j);
    forall w, d
      ensures Lookup(after, w, d) == Lookup(index0, w, d) + (if d == docId then Count(words[..j + 1], w) else 0)
    {
      assert Lookup(after, w, d) == Lookup(before, w, d) + (if w == words[j] && d == docId then 1 else 0);
    }
  }

  /** The inner loop of `create_inverse_index_catalogue`: every word of
      one row counted into `index[word][docId]`. */
  method CountWords(index0: Index, docId: int, words: seq<string>) returns (index: Index)
    requires WellFormed(index0)
    ensures WellFormed(index)
    ensures forall w, d :: Lookup(index, w, d) == Lookup(index0, w, d) + (if d == docId then Count(words, w) else 0)
    ensures TotalCount(index) == TotalCount(index0) + |words|
  {
    index := index0;
    var j := 0;
    assert forall w :: Count(words[..j], w) == 0 by {
      assert words[..j] == [];
    }
    while j < |words|
      invariant 0 <= j <= |words|
      invariant CountedPrefix(index0, index, docId, words, j)
    {
      var word := words[j];
      ghost var before := index;
      index := AddOccurrence(index, word, docId);
      CountStep(index0, before, index, docId, words, j);
      j := j + 1;
    }
    assert words[..j] == words;
  }

  /** `create_inverse_index_catalogue`: for every row, every word of its
      cleaned speech is counted into `index[word][doc_id]`. The result
      holds, for every word and document, exactly the number of
      occurrences of the word in that document's rows (rows sharing a doc
      id merge), stores a posting only where that number is positive, and
      its counts add up to the number of words in the corpus. */
  method CreateInverseIndex(rows: seq<Row>) returns (index: Index)
    ensures WellFormed(index)
    ensures forall w, d :: Lookup(index, w, d) == Occurrences(rows, w, d)
    ensures TotalCount(index) == TotalWords(rows)
  {
    index := map[];
    assert TotalCount(index) == 0;
    var i := 0;
    while i < |rows|
      invariant 0 <= i <= |rows|
      invariant WellFormed(index)
      invariant forall w, d :: Lookup(index, w, d) == Occurrences(rows[..i], w, d)
      invariant TotalCount(index) == TotalWords(rows[..i])
    {
      OccurrencesSnoc(rows, i);
      index := CountWords(index, rows[i].docId, Words(rows[i]));
      i := i + 1;
    }
    assert rows[..i] == rows;
  }

  // ---------------------------------------------------------------------
  // Properties of the specification.

  /** A word occurs in a document exactly when some row with that doc id
      has the word among its words. */
  lemma {:induction false} OccurrencesPositive(rows: seq<Row>, w: string, d: int)
    ensures Occurrences(rows, w, d) > 0 <==> exists k :: 0 <= k < |rows| && rows[k].docId == d && w in Words(rows[k])
  {
    if rows != [] {
      var init := rows[..|rows| - 1];
      OccurrencesPositive(init, w, d);
      if Occurrences(init, w, d) > 0 {
        var k :| 0 <= k < |init| && init[k].docId == d && w in Words(init[k]);
        assert rows[k] == init[k];
      }
      if exists k :: 0 <= k < |rows| && rows[k].docId == d && w in Words(rows[k]) {
        var k :| 0 <= k < |rows| && rows[k].docId == d && w in Words(rows[k]);
        if k < |rows| - 1 {
          assert init[k] == rows[k];
        }
      }
    }
  }

  /** A posting for (w, d) exists exactly when w occurs in document d. */
  lemma PostingExists(rows: seq<Row>, index: Index, w: string, d: int)
    requires WellFormed(index)
    requires forall w, d :: Lookup(index, w, d) == Occurrences(rows, w, d)
    ensures (w in index && d in index[w]) <==> exists k :: 0 <= k < |rows| && rows[k].docId == d && w in Words(rows[k])
  {
    OccurrencesPositive(rows, w, d);
    assert (w in index && d in index[w]) <==> Lookup(index, w, d) > 0;
  }

  /** A word is a key of the index exactly when it occurs in some row. */
  lemma IndexKey(rows: seq<Row>, index: Index, w: string)
    requires WellFormed(index)
    requires forall w, d :: Lookup(index, w, d) == Occurrences(rows, w, d)
    ensures w in index <==> exists k :: 0 <= k < |rows| && w in Words(rows[k])
  {
    if w in index {
      KeyOccurs(rows, index, w);
    }
    if exists k :: 0 <= k < |rows| && w in Words(rows[k]) {
      var k :| 0 <= k < |rows| && w in Words(rows[k]);
      PostingExists(rows, index, w, rows[k].docId);
    }
  }

  lemma EmptyOrHasKey(p: Postings)
    ensures p == map[] || exists d :: d in p
  {
    if !exists d :: d in p {
      assert p == map[];
    }
  }

  lemma KeyOccurs(rows: seq<Row>, index: Index, w: string)
    requires WellFormed(index) && w in index
    requires forall w, d :: Lookup(index, w, d) == Occurrences(rows, w, d)
    ensures exists k :: 0 <= k < |rows| && w in Words(rows[k])
  {
    var p := index[w];
    EmptyOrHasKey(p);
    var d :| d in p;
    PostingExists(rows, index, w, d);
  }

  /** Counting a corpus in two parts and adding gives the same counts:
      rows that carry the same doc id merge into one posting. */
  lemma {:induction false} OccurrencesAppend(a: seq<Row>, b: seq<Row>, w: string, d: int)
    ensures Occurrences(a + b, w, d) == Occurrences(a, w, d) + Occurrences(b, w, d)
  {
    if b == [] {
      assert a + b == a;
    } else {
      var b' := b[..|b| - 1];
      OccurrencesAppend(a, b', w, d);
      assert (a + b)[..|a + b| - 1] == a + b';
    }
  }

  /** A row whose speech cell is present but only whitespace (or, outside
      the CSV round trip, empty) adds nothing. */
  lemma BlankRowAddsNothing(rows: seq<Row>, row: Row, w: string, d: int)
    requires AllSpace(SpeechText(row.cleanedSpeech))
    ensures Occurrences(rows + [row], w, d) == Occurrences(rows, w, d)
  {
    assert (rows + [row])[..|rows|] == rows;
  }

  /** A missing speech cell is indexed as the single word "nan". */
  lemma MissingSpeechIsNan(d: int)
    ensures Words(Row(d, None)) == ["nan"]
  {
    var s := "nan";
    assert !IsSpace(s[0]) && !IsSpace(s[1]) && !IsSpace(s[2]);
    assert DropLeadingSpace(s) == s;
    assert DropTrailingSpace(s) == s;
    assert s[1..][1..][1..] == [];
    assert WordLength(s[1..][1..][1..]) == 0;
    assert WordLength(s) == 3;
    assert s[..3] == s && s[3..] == [];
  }
}
