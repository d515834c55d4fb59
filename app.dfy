/** The ranking step of the search endpoint: the scores are paired with
    their document positions, sorted by descending score (stably, so equal
    scores keep ascending position order), cut to the first five, and the
    zero scores are dropped. */
module App {
  import opened Sorting

  /** The number of results the search endpoint keeps. */
  const MaxResults: nat := 5

  function Min(a: int, b: int): int {
    if a <= b then a else b
  }

  /** `sorted(enumerate(scores), key=lambda x: x[1], reverse=True)[:5]`;
      the slice stops at the end of a shorter list. */
  function TopDocs(scores: seq<real>): seq<Scored> {
    RankIsRanking(scores);
    Rank(scores)[..Min(MaxResults, |scores|)]
  }

  /** The entries of `s` whose score is not zero, in order. */
  function KeepNonZero(s: seq<Scored>): seq<Scored> {
    if s == [] then []
    else (if s[0].score == 0.0 then [] else [s[0]]) + KeepNonZero(s[1..])
  }

  /** Number of entries of `s` with a positive score. */
  function PositiveEntries(s: seq<Scored>): nat {
    if s == [] then 0 else (if s[0].score > 0.0 then 1 else 0) + PositiveEntries(s[1..])
  }

  /** Number of positive values. */
  function Positives(values: seq<real>): nat {
    if values == [] then 0
    else Positives(values[..|values| - 1]) + (if values[|values| - 1] > 0.0 then 1 else 0)
  }

  /** The filtering loop of `search`: the top documents in order, skipping
      every score equal to 0. At most five results come back, none with
      score 0, in descending score order with ties in ascending position
      order, each a valid position carrying exactly its own score. */
  method Search(scores: seq<real>) returns (results: seq<Scored>)
    ensures results == KeepNonZero(TopDocs(scores))
    ensures |results| <= MaxResults
    ensures forall k :: 0 <= k < |results| ==> results[k].score != 0.0
    ensures Ranked(results)
    ensures forall k :: 0 <= k < |results| ==> results[k].id < |scores| && results[k].score == scores[results[k].id]
  {
    var topDocs := TopDocs(scores);
    results := DropZeros(topDocs);
    SearchResults(scores);
  }

  /** The loop of `search` over the top documents: every entry whose score
      is not 0 is appended, in order. */
  method DropZeros(topDocs: seq<Scored>) returns (results: seq<Scored>)
    ensures results == KeepNonZero(topDocs)
  {
    results := [];
    var i := 0;
    while i < |topDocs|
      invariant 0 <= i <= |topDocs|
      invariant results == KeepNonZero(topDocs[..i])
    {
      var doc := topDocs[i];
      KeepNonZeroSnoc(topDocs[..i], doc);
      assert topDocs[..i + 1] == topDocs[..i] + [doc];
      if doc.score != 0.0 {
        results := results + [doc];
      }
      i := i + 1;
    }
    assert topDocs[..i] == topDocs;
  }

  lemma {:induction false} KeepNonZeroSnoc(s: seq<Scored>, x: Scored)
    ensures KeepNonZero(s + [x]) == KeepNonZero(s) + (if x.score == 0.0 then [] else [x])
  {
    if s != [] {
      assert (s + [x])[1..] == s[1..] + [x];
      KeepNonZeroSnoc(s[1..], x);
    } else {
      assert [x][1..] == [];
    }
  }

  /** The filter keeps a subsequence: no more entries, each one from the
      input, with the input's relative order. */
  lemma {:induction false} KeepNonZeroSubsequence(s: seq<Scored>)
    ensures |KeepNonZero(s)| <= |s|
    ensures forall k :: 0 <= k < |KeepNonZero(s)| ==> KeepNonZero(s)[k] in s && KeepNonZero(s)[k].score != 0.0
    ensures Ranked(s) ==> Ranked(KeepNonZero(s))
  {
    if s != [] {
      var tail := s[1..];
      KeepNonZeroSubsequence(tail);
      var r, rt := KeepNonZero(s), KeepNonZero(tail);
      forall k | 0 <= k < |r| ensures r[k] in s && r[k].score != 0.0 {
        if s[0].score == 0.0 || k > 0 {
          var k' := if s[0].score == 0.0 then k else k - 1;
          assert r[k] == rt[k'];
          assert rt[k'] in tail;
        }
      }
      if Ranked(s) {
        assert Ranked(tail);
        forall i, j | 0 <= i < j < |r| ensures Before(r[i], r[j]) {
          if s[0].score == 0.0 {
            assert r[i] == rt[i] && r[j] == rt[j];
          } else if i == 0 {
            assert r[j] == rt[j - 1] && rt[j - 1] in tail;
            var m :| 0 <= m < |tail| && tail[m] == rt[j - 1];
            assert Before(s[0], s[m + 1]);
          } else {
            assert r[i] == rt[i - 1] && r[j] == rt[j - 1];
          }
        }
      }
    }
  }

  /** What the search endpoint returns, whatever the scores: at most five
      results, none with score 0, ranked by descending score and then by
      ascending position, each a valid position with its own score, no
      position twice. */
  lemma SearchResults(scores: seq<real>)
    ensures |KeepNonZero(TopDocs(scores))| <= MaxResults
    ensures forall k :: 0 <= k < |KeepNonZero(TopDocs(scores))| ==> KeepNonZero(TopDocs(scores))[k].score != 0.0
    ensures Ranked(KeepNonZero(TopDocs(scores)))
    ensures forall k :: 0 <= k < |KeepNonZero(TopDocs(scores))| ==>
      KeepNonZero(TopDocs(scores))[k].id < |scores| && KeepNonZero(TopDocs(scores))[k].score == scores[KeepNonZero(TopDocs(scores))[k].id]
    ensures forall i, j :: 0 <= i < j < |KeepNonZero(TopDocs(scores))| ==>
      KeepNonZero(TopDocs(scores))[i].id != KeepNonZero(TopDocs(scores))[j].id
  {
    RankIsRanking(scores);
    var ranked := Rank(scores);
    var top := TopDocs(scores);
    assert top == ranked[..Min(MaxResults, |scores|)];
    assert Ranked(top);
    KeepNonZeroSubsequence(top);
    var r := KeepNonZero(top);
    forall k | 0 <= k < |r| ensures r[k].id < |scores| && r[k].score == scores[r[k].id] {
      assert r[k] in top;
      var m :| 0 <= m < |top| && top[m] == r[k];
      assert ranked[m] in ranked;
    }
    forall i, j | 0 <= i < j < |r| ensures r[i].id != r[j].id {
      assert Before(r[i], r[j]);
    }
  }

  // ---------------------------------------------------------------------
  // How many results come back.

  lemma {:induction false} InsertDescendingPositives(x: Scored, s: seq<Scored>)
    ensures PositiveEntries(InsertDescending(x, s)) == PositiveEntries(s) + (if x.score > 0.0 then 1 else 0)
  {
    if s != [] && s[0].score > x.score {
      InsertDescendingPositives(x, s[1..]);
      assert ([s[0]] + InsertDescending(x, s[1..]))[1..] == InsertDescending(x, s[1..]);
    } else if s != [] {
      assert ([x] + s)[1..] == s;
    }
  }

  lemma {:induction false} SortDescendingPositives(s: seq<Scored>)
    ensures PositiveEntries(SortDescending(s)) == PositiveEntries(s)
  {
    if s != [] {
      SortDescendingPositives(s[1..]);
      InsertDescendingPositives(s[0], SortDescending(s[1..]));
    }
  }

  lemma {:induction false} PositiveEntriesSnoc(s: seq<Scored>, x: Scored)
    ensures PositiveEntries(s + [x]) == PositiveEntries(s) + (if x.score > 0.0 then 1 else 0)
  {
    if s != [] {
      assert (s + [x])[1..] == s[1..] + [x];
      PositiveEntriesSnoc(s[1..], x);
    } else {
      assert [x][1..] == [];
    }
  }

  lemma {:induction false} EnumeratePositives(values: seq<real>)
    ensures PositiveEntries(Enumerate(values)) == Positives(values)
  {
    if values != [] {
      var init := values[..|values| - 1];
      EnumeratePositives(init);
      var last := Scored(|values| - 1, values[|values| - 1]);
      assert Enumerate(values) == Enumerate(init) + [last];
      PositiveEntriesSnoc(Enumerate(init), last);
    }
  }

  /** In a list whose scores are all >= 0 and never increase, the first
      `k` entries hold `min(p, k)` non-zero scores, `p` the number of
      positive entries. */
  lemma {:induction false} KeepNonZeroPrefix(s: seq<Scored>, k: nat)
    requires k <= |s|
    requires forall i :: 0 <= i < |s| ==> s[i].score >= 0.0
    requires forall i, j :: 0 <= i < j < |s| ==> s[i].score >= s[j].score
    ensures |KeepNonZero(s[..k])| == Min(PositiveEntries(s), k)
  {
    if s == [] {
    } else if s[0].score == 0.0 {
      NoPositives(s);
      NoNonZero(s[..k]);
    } else if k == 0 {
      assert s[..k] == [];
    } else {
      KeepNonZeroPrefix(s[1..], k - 1);
      assert s[..k][1..] == s[1..][..k - 1];
    }
  }

  lemma {:induction false} NoPositives(s: seq<Scored>)
    requires forall i :: 0 <= i < |s| ==> s[i].score <= 0.0
    ensures PositiveEntries(s) == 0
  {
    if s != [] {
      NoPositives(s[1..]);
    }
  }

  lemma {:induction false} NoNonZero(s: seq<Scored>)
    requires forall i :: 0 <= i < |s| ==> s[i].score == 0.0
    ensures KeepNonZero(s) == []
  {
    if s != [] {
      NoNonZero(s[1..]);
    }
  }

  /** With every score >= 0 (as the scorer guarantees), the search endpoint
      returns exactly `min(p, 5)` results, `p` the number of documents
      with a positive score. */
  lemma SearchCount(scores: seq<real>)
    requires forall d :: 0 <= d < |scores| ==> scores[d] >= 0.0
    ensures |KeepNonZero(TopDocs(scores))| == Min(Positives(scores), MaxResults)
  {
    RankIsRanking(scores);
    var ranked := Rank(scores);
    forall i | 0 <= i < |ranked| ensures ranked[i].score >= 0.0 {
      assert ranked[i] in ranked;
    }
    forall i, j | 0 <= i < j < |ranked| ensures ranked[i].score >= ranked[j].score {
      assert Before(ranked[i], ranked[j]);
    }
    KeepNonZeroPrefix(ranked, Min(MaxResults, |scores|));
    SortDescendingPositives(Enumerate(scores));
    EnumeratePositives(scores);
    assert PositiveEntries(ranked) <= |ranked| by {
      PositiveEntriesBound(ranked);
    }
  }

  lemma {:induction false} PositiveEntriesBound(s: seq<Scored>)
    ensures PositiveEntries(s) <= |s|
  {
    if s != [] {
      PositiveEntriesBound(s[1..]);
    }
  }
}
