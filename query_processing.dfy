/** Query preprocessing: `clean_query_word` filters one raw token exactly as
    the speech cleaner does, `stem_query_word` stems it with accents
    removed, and `process_query` runs both over the query's tokens, with
    the lemma as fallback and no cache.

    spaCy's tokens, the stemmer, accent stripping and Python's Unicode
    `lower`, `upper` and `isalpha` are the parameters of `DataCleaning.Nlp`. */
module QueryProcessing {
  import opened Wrappers
  import Text
  import DataCleaning

  /** `clean_query_word`: `""`, or a word that is not a stop word, has at
      least two characters and is all alphabetic. */
  function CleanQueryWord(nlp: DataCleaning.Nlp, word: string): (r: string)
    ensures r == "" || (r !in nlp.stopWords && |r| >= 2 && nlp.isAlpha(r))
  {
    var cleaned := nlp.lower(Text.Strip(DataCleaning.Remove(DataCleaning.Remove(word, DataCleaning.Unwanted), c => c == '\t')));
    if cleaned in nlp.stopWords || |cleaned| <= 1 || !nlp.isAlpha(cleaned) then "" else cleaned
  }

  /** `clean_query_word` is `remove_unwanted_pattern`, character for
      character. */
  lemma SameCleaner(nlp: DataCleaning.Nlp, word: string)
    ensures CleanQueryWord(nlp, word) == DataCleaning.RemoveUnwantedPattern(nlp, word)
  {
  }

  /** `stem_query_word`: the stemmer's result for the accent-stripped,
      upper-cased word, lowered, or `""` when the stemmer raises. The POS
      tag is looked up but never used. */
  function StemQueryWord(nlp: DataCleaning.Nlp, word: string, pos: string): (r: string)
    ensures nlp.stem(nlp.upper(nlp.removeAccents(word))).None? ==> r == ""
    ensures nlp.stem(nlp.upper(nlp.removeAccents(word))).Some? ==>
      r == nlp.lower(nlp.stem(nlp.upper(nlp.removeAccents(word))).value)
  {
    var stemPos := DataCleaning.StemPos(pos);
    match nlp.stem(nlp.upper(nlp.removeAccents(word)))
    case None => ""
    case Some(s) => nlp.lower(s)
  }

  /** The POS tag does not change the stem. */
  lemma StemIgnoresPos(nlp: DataCleaning.Nlp, word: string, pos1: string, pos2: string)
    ensures StemQueryWord(nlp, word, pos1) == StemQueryWord(nlp, word, pos2)
  {
  }

  /** The normalisation `process_query` applies to a cleaned word: the
      stem, or the lowered lemma when the stem is `""`. */
  function QueryNormalise(nlp: DataCleaning.Nlp, cleaned: string, token: DataCleaning.Token): string {
    var stemmed := StemQueryWord(nlp, cleaned, token.pos);
    if stemmed == "" then nlp.lower(token.lemmaForm) else stemmed
  }

  /** The cleaner and normaliser `process_query` uses. */
  function QueryPipeline(nlp: DataCleaning.Nlp): (p: DataCleaning.Pipeline)
    ensures forall w :: p.clean(w) == CleanQueryWord(nlp, w)
    ensures forall c, t :: p.normalise(c, t) == QueryNormalise(nlp, c, t)
  {
    DataCleaning.Pipeline(w => CleanQueryWord(nlp, w), (c, t) => QueryNormalise(nlp, c, t))
  }

  /** What one token contributes: nothing when it cleans to `""`, otherwise
      its normalised form. */
  function QueryToken(p: DataCleaning.Pipeline, token: DataCleaning.Token): (r: seq<string>)
    ensures |r| <= 1
    ensures r == [] <==> p.clean(token.text) == ""
  {
    var cleaned := p.clean(token.text);
    if cleaned == "" then [] else [p.normalise(cleaned, token)]
  }

  /** The tokens `process_query` returns for `tokens`. */
  function QueryTokens(p: DataCleaning.Pipeline, tokens: seq<DataCleaning.Token>): seq<string> {
    if tokens == [] then []
    else QueryTokens(p, tokens[..|tokens| - 1]) + QueryToken(p, tokens[|tokens| - 1])
  }

  /** `process_query` on the tokens spaCy gives for the query text. */
  method ProcessQuery(nlp: DataCleaning.Nlp, tokens: seq<DataCleaning.Token>) returns (out: seq<string>)
    ensures out == QueryTokens(QueryPipeline(nlp), tokens)
    ensures |out| <= |tokens|
  {
    ghost var p := QueryPipeline(nlp);
    out := [];
    for i := 0 to |tokens|
      invariant out == QueryTokens(p, tokens[..i])
      invariant |out| <= i
    {
      var token := tokens[i];
      assert tokens[..i + 1][..i] == tokens[..i] && tokens[..i + 1][i] == token;
      assert QueryTokens(p, tokens[..i + 1]) == out + QueryToken(p, token);
      var cleaned := CleanQueryWord(nlp, token.text);
      assert cleaned == p.clean(token.text);
      if cleaned == "" {
        continue;
      }
      var stemmed := StemQueryWord(nlp, cleaned, token.pos);
      if stemmed == "" {
        stemmed := nlp.lower(token.lemmaForm);
      }
      assert stemmed == p.normalise(cleaned, token);
      out := out + [stemmed];
    }
    assert tokens[..|tokens|] == tokens;
  }

  /** The number of tokens that do not clean to `""`. */
  function KeptCount(p: DataCleaning.Pipeline, tokens: seq<DataCleaning.Token>): (n: nat)
    ensures n <= |tokens|
  {
    if tokens == [] then 0
    else KeptCount(p, tokens[..|tokens| - 1]) + (if p.clean(tokens[|tokens| - 1].text) == "" then 0 else 1)
  }

  /** `process_query` returns one token per query token that survives
      cleaning, and no more. */
  lemma {:induction false} QueryTokensCount(p: DataCleaning.Pipeline, tokens: seq<DataCleaning.Token>)
    ensures |QueryTokens(p, tokens)| == KeptCount(p, tokens)
  {
    if tokens != [] {
      QueryTokensCount(p, tokens[..|tokens| - 1]);
    }
  }

  /** No state is carried from one token to the next: the query tokens of
      a concatenation are the concatenation of the query tokens, so a
      repeated word is normalised afresh every time. */
  lemma {:induction false} QueryTokensConcat(p: DataCleaning.Pipeline, a: seq<DataCleaning.Token>, b: seq<DataCleaning.Token>)
    ensures QueryTokens(p, a + b) == QueryTokens(p, a) + QueryTokens(p, b)
  {
    if b != [] {
      QueryTokensConcat(p, a, b[..|b| - 1]);
      assert (a + b)[..|a + b| - 1] == a + b[..|b| - 1];
    } else {
      assert a + b == a;
    }
  }

  /** Every returned token is the normalised form of a query token that
      survives cleaning. */
  lemma {:induction false} QueryTokensFrom(p: DataCleaning.Pipeline, tokens: seq<DataCleaning.Token>)
    ensures forall w :: w in QueryTokens(p, tokens) ==>
      (exists i :: 0 <= i < |tokens| && p.clean(tokens[i].text) != "" && w == p.normalise(p.clean(tokens[i].text), tokens[i]))
  {
    if tokens != [] {
      var init, last := tokens[..|tokens| - 1], tokens[|tokens| - 1];
      QueryTokensFrom(p, init);
      forall w | w in QueryTokens(p, tokens)
        ensures exists i :: 0 <= i < |tokens| && p.clean(tokens[i].text) != "" && w == p.normalise(p.clean(tokens[i].text), tokens[i])
      {
        if w in QueryTokens(p, init) {
          var i :| 0 <= i < |init| && p.clean(init[i].text) != "" && w == p.normalise(p.clean(init[i].text), init[i]);
          assert tokens[i] == init[i];
        } else {
          assert QueryToken(p, last) == [w];
        }
      }
    }
  }

  /** The only difference from `clean_text` is its cache: on a text whose
      raw tokens are all distinct, `clean_text`'s loop from an empty
      dictionary, run with the same cleaner and normaliser, emits exactly
      what `process_query` returns. */
  lemma {:induction false} NoRepeatsNoCache(p: DataCleaning.Pipeline, tokens: seq<DataCleaning.Token>)
    requires forall i, j :: 0 <= i < j < |tokens| ==> tokens[i].text != tokens[j].text
    ensures DataCleaning.Run(p, tokens, map[]).result == QueryTokens(p, tokens)
    ensures forall raw :: raw in DataCleaning.Run(p, tokens, map[]).dictionary ==>
      exists i :: 0 <= i < |tokens| && tokens[i].text == raw
  {
    if tokens != [] {
      var init, last := tokens[..|tokens| - 1], tokens[|tokens| - 1];
      NoRepeatsNoCache(p, init);
      var st := DataCleaning.Run(p, init, map[]);
      assert DataCleaning.Run(p, tokens, map[]) == DataCleaning.Step(p, st, last);
      forall i | 0 <= i < |init| ensures init[i].text != last.text {
        assert init[i] == tokens[i];
      }
      assert last.text !in st.dictionary;
      DataCleaning.StepKeys(p, st, last);
      forall raw | raw in DataCleaning.Run(p, tokens, map[]).dictionary
        ensures exists i :: 0 <= i < |tokens| && tokens[i].text == raw
      {
        if raw in st.dictionary {
          var i :| 0 <= i < |init| && init[i].text == raw;
          assert tokens[i] == init[i];
        } else {
          assert tokens[|tokens| - 1].text == raw;
        }
      }
    }
  }
}
