/** Python's string primitives the pipeline relies on: `str.isspace`,
    `str.split()` with no separator, `str.strip()`, `" ".join(...)`, and
    counting occurrences of a token. */
module Text {

  /** Python's `str.isspace` for one character: the characters whose
      bidirectional class is WS, B or S, or whose category is Zs. */
  predicate IsSpace(c: char) {
    || c == ' '
    || '\t' <= c <= '\r'
    || '\U{1c}' <= c <= '\U{1f}'
    || c == '\U{85}'
    || c == '\U{a0}'
    || c == '\U{1680}'
    || '\U{2000}' <= c <= '\U{200a}'
    || c == '\U{2028}'
    || c == '\U{2029}'
    || c == '\U{202f}'
    || c == '\U{205f}'
    || c == '\U{3000}'
  }

  /** No character of `s` is whitespace. */
  predicate NoSpace(s: string) {
    forall i :: 0 <= i < |s| ==> !IsSpace(s[i])
  }

  /** Every character of `s` is whitespace (true of the empty string). */
  predicate AllSpace(s: string) {
    forall i :: 0 <= i < |s| ==> IsSpace(s[i])
  }

  /** `s` without its leading whitespace. */
  function DropLeadingSpace(s: string): (r: string)
    ensures |r| <= |s|
    ensures forall i :: 0 <= i < |s| - |r| ==> IsSpace(s[i])
    ensures r != [] ==> r[0] == s[|s| - |r|]
    ensures r == [] || !IsSpace(r[0])
  {
    if s != [] && IsSpace(s[0]) then DropLeadingSpace(s[1..]) else s
  }

  /** `s` without its trailing whitespace. */
  function DropTrailingSpace(s: string): (r: string)
    ensures |r| <= |s|
    ensures forall i :: |r| <= i < |s| ==> IsSpace(s[i])
    ensures r != [] ==> r[0] == s[0]
    ensures r == [] || !IsSpace(r[|r| - 1])
  {
    if s != [] && IsSpace(s[|s| - 1]) then DropTrailingSpace(s[..|s| - 1]) else s
  }

  /** Python's `s.strip()`: both ends lose their whitespace, and nothing
      is left of a text that is empty or all whitespace. */
  function Strip(s: string): (r: string)
    ensures r == [] <==> AllSpace(s)
    ensures r != [] ==> !IsSpace(r[0]) && !IsSpace(r[|r| - 1])
  {
    var t := DropLeadingSpace(s);
    DropTrailingSpace(t)
  }

  lemma {:induction false} DropLeadingSpaceSuffix(s: string)
    ensures DropLeadingSpace(s) == s[|s| - |DropLeadingSpace(s)|..]
  {
    if s != [] && IsSpace(s[0]) {
      DropLeadingSpaceSuffix(s[1..]);
    }
  }

  lemma {:induction false} DropTrailingSpacePrefix(s: string)
    ensures DropTrailingSpace(s) == s[..|DropTrailingSpace(s)|]
  {
    if s != [] && IsSpace(s[|s| - 1]) {
      DropTrailingSpacePrefix(s[..|s| - 1]);
    }
  }

  /** `strip()` only removes characters: every character left is one of
      `s`. */
  lemma StripKeepsCharacters(s: string)
    ensures forall i :: 0 <= i < |Strip(s)| ==> Strip(s)[i] in s
  {
    var t := DropLeadingSpace(s);
    DropLeadingSpaceSuffix(s);
    DropTrailingSpacePrefix(t);
    var a := |s| - |t|;
    forall i | 0 <= i < |Strip(s)| ensures Strip(s)[i] in s {
      assert Strip(s)[i] == s[a + i];
    }
  }

  /** Length of the run of non-whitespace characters that starts `s`. */
  function WordLength(s: string): (n: nat)
    ensures n <= |s|
    ensures NoSpace(s[..n])
    ensures n == |s| || IsSpace(s[n])
  {
    if s == [] || IsSpace(s[0]) then 0 else 1 + WordLength(s[1..])
  }

  /** Python's `s.split()`: the maximal runs of non-whitespace characters,
      in order. Every token is non-empty and holds no whitespace, and the
      result is empty exactly when the text is empty or all whitespace. */
  function Split(s: string): (r: seq<string>)
    ensures forall k :: 0 <= k < |r| ==> r[k] != [] && NoSpace(r[k])
    ensures r == [] <==> AllSpace(s)
    decreases |s|
  {
    var t := DropLeadingSpace(s);
    SplitEmptyCase(s, t);
    if t == [] then []
    else
      var n := WordLength(t);
      var head, rest := t[..n], Split(t[n..]);
      assert head != [] && NoSpace(head);
      SplitCons(head, rest);
      [head] + rest
  }

  lemma SplitEmptyCase(s: string, t: string)
    requires t == DropLeadingSpace(s)
    ensures t == [] <==> AllSpace(s)
  {
    if t != [] {
      assert s[|s| - |t|] == t[0];
    }
  }

  lemma SplitCons(head: string, rest: seq<string>)
    requires head != [] && NoSpace(head)
    requires forall k :: 0 <= k < |rest| ==> rest[k] != [] && NoSpace(rest[k])
    ensures forall k :: 0 <= k < |rest| + 1 ==> ([head] + rest)[k] != [] && NoSpace(([head] + rest)[k])
  {
    forall k | 0 <= k < |rest| + 1
      ensures ([head] + rest)[k] != [] && NoSpace(([head] + rest)[k])
    {
      if k > 0 {
        assert ([head] + rest)[k] == rest[k - 1];
      }
    }
  }

  /** Python's `" ".join(words)`. */
  function Join(words: seq<string>): string {
    if words == [] then ""
    else if |words| == 1 then words[0]
    else words[0] + " " + Join(words[1..])
  }

  /** The non-empty words of `words`, in order. */
  function NonEmpty(words: seq<string>): (r: seq<string>)
    ensures |r| <= |words|
    ensures forall k :: 0 <= k < |r| ==> r[k] in words && r[k] != []
  {
    if words == [] then []
    else if words[0] == [] then NonEmpty(words[1..])
    else [words[0]] + NonEmpty(words[1..])
  }

  /** Number of occurrences of `w` in `tokens`. */
  function Count(tokens: seq<string>, w: string): (n: nat)
    ensures n <= |tokens|
    ensures n > 0 <==> w in tokens
  {
    if tokens == [] then 0
    else Count(tokens[..|tokens| - 1], w) + (if tokens[|tokens| - 1] == w then 1 else 0)
  }

  lemma SplitLeadingSpace(c: char, s: string)
    requires IsSpace(c)
    ensures Split([c] + s) == Split(s)
  {
    assert ([c] + s)[1..] == s;
  }

  lemma {:induction false} WordLengthOfWord(w: string, rest: string)
    requires NoSpace(w)
    requires rest == [] || IsSpace(rest[0])
    ensures WordLength(w + rest) == |w|
  {
    if w != [] {
      assert (w + rest)[1..] == w[1..] + rest;
      WordLengthOfWord(w[1..], rest);
    } else {
      assert w + rest == rest;
    }
  }

  /** A non-empty word followed by whitespace splits off as one token. */
  lemma SplitWord(w: string, rest: string)
    requires w != [] && NoSpace(w)
    requires rest == [] || IsSpace(rest[0])
    ensures Split(w + rest) == [w] + Split(rest)
  {
    var s := w + rest;
    assert s[0] == w[0];
    assert DropLeadingSpace(s) == s;
    WordLengthOfWord(w, rest);
    assert s[..|w|] == w;
    assert s[|w|..] == rest;
  }

  /** A word and a space in front of `j` split as the word (if any) and
      then the tokens of `j`. */
  lemma SplitJoinStep(w: string, j: string)
    requires NoSpace(w)
    ensures Split(w + " " + j) == (if w == [] then [] else [w]) + Split(j)
  {
    var sj := " " + j;
    assert sj == [' '] + j;
    assert w + " " + j == w + sj;
    SplitLeadingSpace(' ', j);
    if w == [] {
      assert w + sj == sj;
    } else {
      SplitWord(w, sj);
    }
  }

  /** Splitting a space-joined list of words recovers the words, except
      that empty words vanish: the text written by `clean_text` reads back
      through the index builder's `split()` as its non-empty stems. */
  lemma {:induction false} SplitJoin(words: seq<string>)
    requires forall k :: 0 <= k < |words| ==> NoSpace(words[k])
    ensures Split(Join(words)) == NonEmpty(words)
  {
    if words == [] {
    } else if |words| == 1 {
      var w := words[0];
      assert Join(words) == w;
      assert NonEmpty(words[1..]) == [];
      if w != [] {
        SplitWord(w, "");
        assert w + "" == w;
      }
    } else {
      var w, rest := words[0], words[1..];
      SplitJoin(rest);
      SplitJoinStep(w, Join(rest));
    }
  }
}
