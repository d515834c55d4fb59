/** Orderings and sorts shared by the pipeline: Python's string order,
    `sorted(set(...))` of distinct values, `{x: i for i, x in enumerate(xs)}`
    position maps, and the stable descending sort of `(index, score)`
    pairs behind `sorted(enumerate(scores), key=..., reverse=True)`. */
module Sorting {

  // ---------------------------------------------------------------------
  // Python's `<` on `str` (also SQLite's BINARY collation on UTF-8 text):
  // lexicographic by code point, a proper prefix first.

  predicate LexLess(a: string, b: string) {
    if a == [] then b != []
    else if b == [] then false
    else if a[0] != b[0] then a[0] < b[0]
    else LexLess(a[1..], b[1..])
  }

  lemma {:induction false} LexLessIrreflexive(a: string)
    ensures !LexLess(a, a)
  {
    if a != [] { LexLessIrreflexive(a[1..]); }
  }

  lemma {:induction false} LexLessTransitive(a: string, b: string, c: string)
    requires LexLess(a, b) && LexLess(b, c)
    ensures LexLess(a, c)
  {
    if a != [] && b != [] && c != [] && a[0] == b[0] && b[0] == c[0] {
      LexLessTransitive(a[1..], b[1..], c[1..]);
    }
  }

  lemma {:induction false} LexLessTotal(a: string, b: string)
    requires a != b
    ensures LexLess(a, b) || LexLess(b, a)
  {
    if a != [] && b != [] && a[0] == b[0] {
      assert a == [a[0]] + a[1..] && b == [b[0]] + b[1..];
      LexLessTotal(a[1..], b[1..]);
    }
  }

  // ---------------------------------------------------------------------
  // Strict total orders, and sorted lists of distinct values.

  ghost predicate StrictTotalOrder<T(!new)>(less: (T, T) -> bool) {
    && (forall a :: !less(a, a))
    && (forall a, b, c :: less(a, b) && less(b, c) ==> less(a, c))
    && (forall a, b :: a != b ==> less(a, b) || less(b, a))
  }

  /** Python's string order is a strict total order. */
  lemma LexLessIsStrictTotalOrder()
    ensures StrictTotalOrder(LexLess)
  {
    forall a ensures !LexLess(a, a) { LexLessIrreflexive(a); }
    forall a, b, c | LexLess(a, b) && LexLess(b, c) ensures LexLess(a, c) {
      LexLessTransitive(a, b, c);
    }
    forall a, b | a != b ensures LexLess(a, b) || LexLess(b, a) { LexLessTotal(a, b); }
  }

  /** The order of integers (SQLite's ORDER BY on INTEGER, numpy's sort). */
  function IntLess(a: int, b: int): bool { a < b }

  lemma IntLessIsStrictTotalOrder()
    ensures StrictTotalOrder(IntLess)
  {
  }

  ghost predicate StrictlySorted<T>(s: seq<T>, less: (T, T) -> bool) {
    forall i, j :: 0 <= i < j < |s| ==> less(s[i], s[j])
  }

  /** No value occurs twice in `s`. */
  predicate Distinct<T(==)>(s: seq<T>) {
    forall i, j :: 0 <= i < j < |s| ==> s[i] != s[j]
  }

  lemma StrictlySortedIsDistinct<T(!new)>(s: seq<T>, less: (T, T) -> bool)
    requires StrictTotalOrder(less) && StrictlySorted(s, less)
    ensures Distinct(s)
  {
    forall i, j | 0 <= i < j < |s| ensures s[i] != s[j] {
      assert less(s[i], s[j]);
    }
  }

  /** `x` inserted into the sorted list `s` unless it is already there. */
  function InsertDistinct<T(==,!new)>(x: T, s: seq<T>, less: (T, T) -> bool): (r: seq<T>)
    requires StrictTotalOrder(less) && StrictlySorted(s, less)
    ensures StrictlySorted(r, less)
    ensures forall y :: y in r <==> y == x || y in s
  {
    if s == [] then [x]
    else if x == s[0] then s
    else if less(x, s[0]) then
      assert forall k :: 0 < k < |s| ==> less(x, s[k]) by {
        forall k | 0 < k < |s| ensures less(x, s[k]) { assert less(s[0], s[k]); }
      }
      [x] + s
    else
      var rest := InsertDistinct(x, s[1..], less);
      assert less(s[0], x);
      assert forall y :: y in rest ==> less(s[0], y) by {
        forall y | y in rest ensures less(s[0], y) {
          if y != x {
            var k :| 0 <= k < |s[1..]| && s[1..][k] == y;
            assert s[k + 1] == y;
          }
        }
      }
      assert forall y :: y in s <==> y == s[0] || y in s[1..] by {
        assert s == [s[0]] + s[1..];
      }
      [s[0]] + rest
  }

  /** Python's `sorted(set(xs))`: the distinct values of `xs`, ascending. */
  function SortDistinct<T(==,!new)>(xs: seq<T>, less: (T, T) -> bool): (r: seq<T>)
    requires StrictTotalOrder(less)
    ensures StrictlySorted(r, less)
    ensures forall y :: y in r <==> y in xs
  {
    if xs == [] then []
    else
      assert forall y :: y in xs <==> y == xs[0] || y in xs[1..] by {
        assert xs == [xs[0]] + xs[1..];
      }
      InsertDistinct(xs[0], SortDistinct(xs[1..], less), less)
  }

  /** Python's `{x: i for i, x in enumerate(xs)}` for a list of distinct
      values: each value maps to its position, a bijection from the values
      of `xs` onto `0..|xs|-1`. */
  function PositionMap<T(==,!new)>(xs: seq<T>): (m: map<T, nat>)
    requires Distinct(xs)
    ensures forall x :: x in m <==> x in xs
    ensures forall i :: 0 <= i < |xs| ==> xs[i] in m && m[xs[i]] == i
    ensures forall x :: x in m ==> m[x] < |xs| && xs[m[x]] == x
  {
    map i | 0 <= i < |xs| :: xs[i] := i
  }

  // ---------------------------------------------------------------------
  // Stable descending sort of (index, score) pairs.

  datatype Scored = Scored(id: nat, score: real)

  /** Python's `list(enumerate(values))`. */
  function Enumerate(values: seq<real>): (r: seq<Scored>)
    ensures |r| == |values|
    ensures forall k :: 0 <= k < |r| ==> r[k] == Scored(k, values[k])
  {
    seq(|values|, k requires 0 <= k < |values| => Scored(k, values[k]))
  }

  /** `a` precedes `b`: higher score first, the lower index first among
      equal scores. */
  predicate Before(a: Scored, b: Scored) {
    a.score > b.score || (a.score == b.score && a.id < b.id)
  }

  ghost predicate Ranked(s: seq<Scored>) {
    forall i, j :: 0 <= i < j < |s| ==> Before(s[i], s[j])
  }

  /** `x` placed in front of the first element whose score is not higher
      than its own: stable, since `x` comes from earlier in the input. */
  function InsertDescending(x: Scored, s: seq<Scored>): (r: seq<Scored>)
    ensures multiset(r) == multiset(s) + multiset{x}
  {
    if s == [] then [x]
    else if s[0].score <= x.score then [x] + s
    else
      assert s == [s[0]] + s[1..];
      [s[0]] + InsertDescending(x, s[1..])
  }

  /** Python's stable `sorted(s, key=lambda p: p.score, reverse=True)`. */
  function SortDescending(s: seq<Scored>): (r: seq<Scored>)
    ensures multiset(r) == multiset(s)
  {
    if s == [] then []
    else
      assert s == [s[0]] + s[1..];
      InsertDescending(s[0], SortDescending(s[1..]))
  }

  lemma {:induction false} InsertDescendingRanked(x: Scored, s: seq<Scored>)
    requires Ranked(s)
    requires forall k :: 0 <= k < |s| ==> x.id < s[k].id
    ensures Ranked(InsertDescending(x, s))
  {
    if s == [] {
    } else if s[0].score <= x.score {
      var r := [x] + s;
      forall i, j | 0 <= i < j < |r| ensures Before(r[i], r[j]) {
        if i == 0 {
          assert r[j] == s[j - 1];
          if j > 1 { assert Before(s[0], s[j - 1]); }
        } else {
          assert Before(s[i - 1], s[j - 1]);
        }
      }
    } else {
      var tail := s[1..];
      InsertDescendingRanked(x, tail);
      var rest := InsertDescending(x, tail);
      var r := [s[0]] + rest;
      forall k | 0 <= k < |rest| ensures Before(s[0], rest[k]) {
        assert rest[k] in multiset(rest);
        if rest[k] != x {
          assert rest[k] in tail;
          var m :| 0 <= m < |tail| && tail[m] == rest[k];
          assert Before(s[0], s[m + 1]);
        }
      }
      forall i, j | 0 <= i < j < |r| ensures Before(r[i], r[j]) {
        if i == 0 {
          assert r[j] == rest[j - 1];
        } else {
          assert r[i] == rest[i - 1] && r[j] == rest[j - 1];
        }
      }
    }
  }

  lemma {:induction false} SortDescendingRanked(s: seq<Scored>)
    requires forall i, j :: 0 <= i < j < |s| ==> s[i].id < s[j].id
    ensures Ranked(SortDescending(s))
  {
    if s != [] {
      var tail := s[1..];
      SortDescendingRanked(tail);
      var sorted := SortDescending(tail);
      forall k | 0 <= k < |sorted| ensures s[0].id < sorted[k].id {
        assert sorted[k] in multiset(tail);
        var m :| 0 <= m < |tail| && tail[m] == sorted[k];
        assert s[m + 1] == tail[m];
      }
      InsertDescendingRanked(s[0], sorted);
    }
  }

  /** `sorted(enumerate(values), key=lambda x: x[1], reverse=True)`. */
  function Rank(values: seq<real>): seq<Scored> {
    SortDescending(Enumerate(values))
  }

  /** The ranking lists every position exactly once with its own value,
      in descending order of value, equal values by ascending position. */
  lemma RankIsRanking(values: seq<real>)
    ensures multiset(Rank(values)) == multiset(Enumerate(values))
    ensures |Rank(values)| == |values|
    ensures Ranked(Rank(values))
    ensures forall k :: 0 <= k < |values| ==> Scored(k, values[k]) in Rank(values)
    ensures forall e :: e in Rank(values) ==> e.id < |values| && e.score == values[e.id]
    ensures forall i, j :: 0 <= i < j < |Rank(values)| ==> Rank(values)[i].id != Rank(values)[j].id
  {
    var en := Enumerate(values);
    var r := Rank(values);
    assert |multiset(r)| == |multiset(en)|;
    SortDescendingRanked(en);
    forall k | 0 <= k < |values| ensures Scored(k, values[k]) in r {
      assert en[k] in multiset(en);
    }
    forall e | e in r ensures e.id < |values| && e.score == values[e.id] {
      assert e in multiset(en);
      var k :| 0 <= k < |en| && en[k] == e;
    }
    forall i, j | 0 <= i < j < |r| ensures r[i].id != r[j].id {
      assert r[i] in r && r[j] in r;
      assert Before(r[i], r[j]);
    }
  }

  /** The positions of the `count` largest values: the first `count`
      entries of the ranking. */
  function TopIds(values: seq<real>, count: nat): (ids: seq<nat>)
    requires count <= |values|
    ensures |ids| == count
    ensures forall i :: 0 <= i < count ==> ids[i] < |values|
  {
    RankIsRanking(values);
    var ranked := Rank(values);
    assert forall i :: 0 <= i < count ==> ranked[i] in ranked;
    seq(count, i requires 0 <= i < count => ranked[i].id)
  }

  /** The selected positions are valid and distinct, by non-increasing
      value; no position left out has a larger value than one selected;
      selecting all of them lists every position. */
  lemma TopIdsSpec(values: seq<real>, count: nat)
    requires count <= |values|
    ensures forall i :: 0 <= i < count ==> TopIds(values, count)[i] < |values|
    ensures forall i, j :: 0 <= i < j < count ==>
      TopIds(values, count)[i] != TopIds(values, count)[j]
      && values[TopIds(values, count)[i]] >= values[TopIds(values, count)[j]]
    ensures forall i, c :: 0 <= i < count && 0 <= c < |values| && c !in TopIds(values, count) ==>
      values[TopIds(values, count)[i]] >= values[c]
    ensures count == |values| ==> forall c :: 0 <= c < |values| ==> c in TopIds(values, count)
  {
    TopIdsOrdered(values, count);
    TopIdsDominate(values, count);
    if count == |values| {
      TopIdsComplete(values);
    }
  }

  /** Entry `p` of the ranking is position `c` exactly when it carries
      `c`'s value; every position has one. */
  lemma RankPosition(values: seq<real>, c: nat) returns (p: nat)
    requires c < |values|
    ensures p < |values| && |Rank(values)| == |values| && Rank(values)[p] == Scored(c, values[c])
  {
    RankIsRanking(values);
    var ranked := Rank(values);
    assert Scored(c, values[c]) in ranked;
    p :| 0 <= p < |ranked| && ranked[p] == Scored(c, values[c]);
  }

  lemma TopIdsOrdered(values: seq<real>, count: nat)
    requires count <= |values|
    ensures forall i, j :: 0 <= i < j < count ==>
      TopIds(values, count)[i] != TopIds(values, count)[j]
      && values[TopIds(values, count)[i]] >= values[TopIds(values, count)[j]]
  {
    RankIsRanking(values);
    var ranked := Rank(values);
    var top := TopIds(values, count);
    forall i, j | 0 <= i < j < count ensures top[i] != top[j] && values[top[i]] >= values[top[j]] {
      assert top[i] == ranked[i].id && top[j] == ranked[j].id;
      assert ranked[i] in ranked && ranked[j] in ranked;
      assert Before(ranked[i], ranked[j]);
    }
  }

  lemma TopIdsDominate(values: seq<real>, count: nat)
    requires count <= |values|
    ensures forall i, c :: 0 <= i < count && 0 <= c < |values| && c !in TopIds(values, count) ==>
      values[TopIds(values, count)[i]] >= values[c]
  {
    var top := TopIds(values, count);
    RankIsRanking(values);
    var ranked := Rank(values);
    assert forall q :: 0 <= q < count ==> top[q] == ranked[q].id;
    forall i, c | 0 <= i < count && 0 <= c < |values| && c !in top ensures values[top[i]] >= values[c] {
      var p := RankPosition(values, c);
      assert ranked[i] in ranked;
      assert i < p;
      assert Before(ranked[i], ranked[p]);
    }
  }

  lemma TopIdsComplete(values: seq<real>)
    ensures forall c :: 0 <= c < |values| ==> c in TopIds(values, |values|)
  {
    var top := TopIds(values, |values|);
    forall c | 0 <= c < |values| ensures c in top {
      var p := RankPosition(values, c);
      assert top[p] == Rank(values)[p].id;
    }
  }
}
