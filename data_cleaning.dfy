/** Token cleaning and memoised normalisation: `remove_unwanted_pattern`
    filters one raw token, `stem_word` stems it under a part-of-speech tag,
    and `clean_text` runs both over a speech's tokens, caching every raw
    token's result in a dictionary shared across speeches.

    spaCy's tokens, the Greek stemmer, the stop-word set and Python's
    Unicode `lower`, `upper` and `isalpha` are parameters (`Nlp`). */
module DataCleaning {
  import opened Wrappers
  import Text

  /** One spaCy token: its text, its coarse POS tag and its lemma. */
  datatype Token = Token(text: string, pos: string, lemmaForm: string)

  /** The foreign pieces the cleaners call. A stemmer call that raises is
      `None`. */
  datatype Nlp = Nlp(
    stopWords: set<string>,
    lower: string -> string,
    upper: string -> string,
    isAlpha: string -> bool,
    stemWord: (string, string) -> Option<string>,
    stem: string -> Option<string>,
    removeAccents: string -> string)

  /** What the model assumes of Python's `str.lower`: the empty string stays
      empty, and lowering adds none of the removed characters and no tab. */
  ghost predicate LowerSound(lower: string -> string) {
    && lower("") == ""
    && forall s :: NoUnwanted(s) ==> NoUnwanted(lower(s))
  }

  // ---------------------------------------------------------------------
  // remove_unwanted_pattern

  /** The character class `[0-9@#$%^&*()\-_=+\[\]{};:'",.<>/?\\|`~!]`. */
  predicate Unwanted(c: char) {
    '0' <= c <= '9' || c in "@#$%^&*()-_=+[]{};:'\",.<>/?\\|`~!"
  }

  /** No character of the class and no tab. */
  predicate NoUnwanted(s: string) {
    forall i :: 0 <= i < |s| ==> !Unwanted(s[i]) && s[i] != '\t'
  }

  /** `re.sub(pattern, '', s)` for a one-character pattern: `s` without the
      characters `drop` selects, in order. */
  function Remove(s: string, drop: char -> bool): (r: string)
    ensures |r| <= |s|
    ensures forall i :: 0 <= i < |r| ==> !drop(r[i]) && r[i] in s
    ensures (forall i :: 0 <= i < |s| ==> drop(s[i])) ==> r == ""
  {
    if s == [] then ""
    else
      var rest := Remove(s[..|s| - 1], drop);
      if drop(s[|s| - 1]) then rest else rest + [s[|s| - 1]]
  }

  /** The word as the cleaner sees it before the checks: unwanted
      characters removed, tabs removed, stripped, lowered. */
  function Cleaned(nlp: Nlp, word: string): string {
    nlp.lower(Text.Strip(Remove(Remove(word, Unwanted), c => c == '\t')))
  }

  /** `remove_unwanted_pattern`: the cleaned word, or `""` when it is a stop
      word, has at most one character or is not all alphabetic. */
  function RemoveUnwantedPattern(nlp: Nlp, word: string): (r: string)
    ensures r == "" || (r !in nlp.stopWords && |r| >= 2 && nlp.isAlpha(r))
  {
    var cleaned := Cleaned(nlp, word);
    if cleaned in nlp.stopWords || |cleaned| <= 1 || !nlp.isAlpha(cleaned) then "" else cleaned
  }

  /** The cleaner keeps a word exactly when its cleaned form passes all
      three checks, and then returns that form. */
  lemma RemoveUnwantedPatternSpec(nlp: Nlp, word: string)
    ensures RemoveUnwantedPattern(nlp, word) != "" <==>
      Cleaned(nlp, word) !in nlp.stopWords && |Cleaned(nlp, word)| >= 2 && nlp.isAlpha(Cleaned(nlp, word))
    ensures RemoveUnwantedPattern(nlp, word) != "" ==> RemoveUnwantedPattern(nlp, word) == Cleaned(nlp, word)
  {
  }

  lemma StripKeepsOut(s: string)
    requires NoUnwanted(s)
    ensures NoUnwanted(Text.Strip(s))
  {
    var r := Text.Strip(s);
    Text.StripKeepsCharacters(s);
    forall i | 0 <= i < |r| ensures !Unwanted(r[i]) && r[i] != '\t' {
      assert r[i] in s;
    }
  }

  /** A word the cleaner keeps holds no digit, none of the listed symbols
      and no tab. */
  lemma KeptHasNoUnwanted(nlp: Nlp, word: string)
    requires LowerSound(nlp.lower)
    ensures NoUnwanted(RemoveUnwantedPattern(nlp, word))
  {
    var removed := Remove(Remove(word, Unwanted), c => c == '\t');
    forall i | 0 <= i < |removed| ensures !Unwanted(removed[i]) && removed[i] != '\t' {
      assert removed[i] in Remove(word, Unwanted);
    }
    StripKeepsOut(removed);
  }

  /** A word made of digits and listed symbols only, such as `"123"`, is
      dropped. */
  lemma OnlyUnwantedDropped(nlp: Nlp, word: string)
    requires nlp.lower("") == ""
    requires forall i :: 0 <= i < |word| ==> Unwanted(word[i])
    ensures RemoveUnwantedPattern(nlp, word) == ""
  {
    assert Remove(word, Unwanted) == "";
    assert Remove("", c => c == '\t') == "";
  }

  // ---------------------------------------------------------------------
  // stem_word

  /** `pos_map.get(pos, "NNM")`. */
  function StemPos(pos: string): (tag: string)
    ensures tag == "VB" <==> pos == "VERB"
    ensures tag == "JJM" <==> pos == "ADJ" || pos == "ADV"
    ensures tag == "PRP" <==> pos == "PROPN"
    ensures tag == "NNM" <==> pos !in {"VERB", "ADJ", "ADV", "PROPN"}
  {
    if pos == "NOUN" then "NNM"
    else if pos == "VERB" then "VB"
    else if pos == "ADJ" || pos == "ADV" then "JJM"
    else if pos == "PROPN" then "PRP"
    else "NNM"
  }

  /** `stem_word`: the stemmer's result for the upper-cased word under the
      mapped tag, lowered; `""` when the stemmer raises. */
  function StemWord(nlp: Nlp, word: string, pos: string): (r: string)
    ensures nlp.stemWord(nlp.upper(word), StemPos(pos)).None? ==> r == ""
    ensures nlp.stemWord(nlp.upper(word), StemPos(pos)).Some? ==>
      r == nlp.lower(nlp.stemWord(nlp.upper(word), StemPos(pos)).value)
  {
    match nlp.stemWord(nlp.upper(word), StemPos(pos))
    case None => ""
    case Some(s) => nlp.lower(s)
  }

  /** The stem, or the lowered lemma when stemming gives `""`. */
  function StemOrLemma(nlp: Nlp, cleaned: string, token: Token): string {
    var stemmed := StemWord(nlp, cleaned, token.pos);
    if stemmed == "" then nlp.lower(token.lemmaForm) else stemmed
  }

  /** The two per-token steps of `clean_text`: the cleaner, and the
      normalisation of a cleaned word (stem, or lemma as fallback). The
      lemmas below hold for any such pair. */
  datatype Pipeline = Pipeline(clean: string -> string, normalise: (string, Token) -> string)

  /** The cleaner and normaliser `clean_text` uses. */
  function Standard(nlp: Nlp): (p: Pipeline)
    ensures forall w :: p.clean(w) == RemoveUnwantedPattern(nlp, w)
    ensures forall c, t :: p.normalise(c, t) == StemOrLemma(nlp, c, t)
  {
    Pipeline(w => RemoveUnwantedPattern(nlp, w), (c, t) => StemOrLemma(nlp, c, t))
  }

  /** An empty stem, or a stemmer that raises, falls back to the lowered
      lemma; a non-empty stem is kept. */
  lemma StemFallback(nlp: Nlp, cleaned: string, token: Token)
    ensures nlp.stemWord(nlp.upper(cleaned), StemPos(token.pos)).None? ==>
      StemOrLemma(nlp, cleaned, token) == nlp.lower(token.lemmaForm)
    ensures StemWord(nlp, cleaned, token.pos) != "" ==> StemOrLemma(nlp, cleaned, token) == StemWord(nlp, cleaned, token.pos)
  {
  }

  // ---------------------------------------------------------------------
  // clean_text

  /** The state of the loop of `clean_text`: the stems emitted so far and
      the dictionary. */
  datatype CleanState = CleanState(result: seq<string>, dictionary: map<string, string>)

  /** One token of `clean_text`: a raw token already in the dictionary
      emits its cached value; one that cleans to `""` is skipped; any other
      emits its stem (or lemma) and caches it under the raw text. */
  function Step(p: Pipeline, st: CleanState, token: Token): CleanState {
    var raw := token.text;
    if raw in st.dictionary then CleanState(st.result + [st.dictionary[raw]], st.dictionary)
    else
      var cleaned := p.clean(raw);
      if cleaned == "" then st
      else
        var stemmed := p.normalise(cleaned, token);
        CleanState(st.result + [stemmed], st.dictionary[raw := stemmed])
  }

  /** The loop of `clean_text` over `tokens`, from an empty result and the
      given dictionary. */
  function Run(p: Pipeline, tokens: seq<Token>, dictionary: map<string, string>): CleanState {
    if tokens == [] then CleanState([], dictionary)
    else Step(p, Run(p, tokens[..|tokens| - 1], dictionary), tokens[|tokens| - 1])
  }

  /** The dictionary `clean_text` shares across calls. */
  class StemCache {
    var entries: map<string, string>

    constructor ()
      ensures entries == map[]
    {
      entries := map[];
    }
  }

  /** `clean_text` on the tokens spaCy gives for one text: the emitted
      stems, joined by single spaces; the dictionary is updated in place. */
  method CleanText(nlp: Nlp, tokens: seq<Token>, cache: StemCache) returns (text: string)
    modifies cache
    ensures text == Text.Join(Run(Standard(nlp), tokens, old(cache.entries)).result)
    ensures cache.entries == Run(Standard(nlp), tokens, old(cache.entries)).dictionary
  {
    var result: seq<string> := [];
    for i := 0 to |tokens|
      invariant CleanState(result, cache.entries) == Run(Standard(nlp), tokens[..i], old(cache.entries))
    {
      assert tokens[..i + 1][..i] == tokens[..i];
      var token := tokens[i];
      var raw := token.text;
      if raw in cache.entries {
        result := result + [cache.entries[raw]];
        continue;
      }
      var cleaned := RemoveUnwantedPattern(nlp, raw);
      assert cleaned == Standard(nlp).clean(raw);
      if cleaned == "" {
        continue;
      }
      var stemmed := StemWord(nlp, cleaned, token.pos);
      if stemmed == "" {
        stemmed := nlp.lower(token.lemmaForm);
      }
      assert stemmed == Standard(nlp).normalise(cleaned, token);
      cache.entries := cache.entries[raw := stemmed];
      result := result + [stemmed];
    }
    assert tokens[..|tokens|] == tokens;
    text := Text.Join(result);
  }

  // ---------------------------------------------------------------------
  // What clean_text does to the dictionary and the output.

  /** The dictionary only grows: an existing entry is never overwritten,
      and a raw token that cleans to `""` is never added. */
  lemma {:induction false} DictionaryGrows(p: Pipeline, tokens: seq<Token>, dictionary: map<string, string>)
    ensures forall raw :: raw in dictionary ==>
      raw in Run(p, tokens, dictionary).dictionary && Run(p, tokens, dictionary).dictionary[raw] == dictionary[raw]
    ensures forall raw :: raw !in dictionary && p.clean(raw) == "" ==>
      raw !in Run(p, tokens, dictionary).dictionary
  {
    if tokens != [] {
      DictionaryGrows(p, tokens[..|tokens| - 1], dictionary);
    }
  }

  /** Some token of `tokens` has raw text `raw`, and `raw` does not clean
      to `""`. */
  ghost predicate Occurs(p: Pipeline, tokens: seq<Token>, raw: string) {
    p.clean(raw) != "" && exists i :: 0 <= i < |tokens| && tokens[i].text == raw
  }

  lemma OccursSnoc(p: Pipeline, tokens: seq<Token>, raw: string)
    requires tokens != []
    ensures Occurs(p, tokens, raw) <==>
      Occurs(p, tokens[..|tokens| - 1], raw) || (tokens[|tokens| - 1].text == raw && p.clean(raw) != "")
  {
    var init := tokens[..|tokens| - 1];
    if Occurs(p, tokens, raw) {
      var i :| 0 <= i < |tokens| && tokens[i].text == raw;
      if i < |init| {
        assert init[i].text == raw;
      }
    }
    if Occurs(p, init, raw) {
      var i :| 0 <= i < |init| && init[i].text == raw;
      assert tokens[i].text == raw;
    }
  }

  /** One token adds at most its own raw text to the dictionary, and only
      when it does not clean to `""`. */
  lemma StepKeys(p: Pipeline, st: CleanState, token: Token)
    ensures forall raw :: raw in Step(p, st, token).dictionary <==>
      raw in st.dictionary || (raw == token.text && p.clean(raw) != "")
  {
  }

  /** One token never changes an existing entry, caches its own stem when
      it adds its raw text, and emits exactly the value its raw text has in
      the dictionary afterwards, or nothing when it is not a key. */
  lemma StepValues(p: Pipeline, st: CleanState, token: Token)
    ensures forall raw :: raw in st.dictionary ==> Step(p, st, token).dictionary[raw] == st.dictionary[raw]
    ensures token.text !in st.dictionary && p.clean(token.text) != "" ==>
      Step(p, st, token).dictionary[token.text] == p.normalise(p.clean(token.text), token)
    ensures Step(p, st, token).result == st.result +
      (if token.text in Step(p, st, token).dictionary then [Step(p, st, token).dictionary[token.text]] else [])
  {
  }

  /** Every new entry comes from a token of this text whose cleaning is not
      `""`, and each such token's raw text ends up in the dictionary. */
  lemma {:induction false} DictionaryKeys(p: Pipeline, tokens: seq<Token>, dictionary: map<string, string>)
    ensures forall raw :: raw !in dictionary ==>
      (raw in Run(p, tokens, dictionary).dictionary <==> Occurs(p, tokens, raw))
  {
    if tokens != [] {
      var init, last := tokens[..|tokens| - 1], tokens[|tokens| - 1];
      DictionaryKeys(p, init, dictionary);
      var st := Run(p, init, dictionary);
      assert Run(p, tokens, dictionary) == Step(p, st, last);
      StepKeys(p, st, last);
      forall raw | raw !in dictionary
        ensures raw in Run(p, tokens, dictionary).dictionary <==> Occurs(p, tokens, raw)
      {
        OccursSnoc(p, tokens, raw);
      }
    }
  }

  lemma NotBefore(p: Pipeline, init: seq<Token>, raw: string)
    requires forall h :: 0 <= h < |init| ==> init[h].text != raw
    ensures !Occurs(p, init, raw)
  {
  }

  /** The value cached for a new raw token is the stem (or lemma) of its
      FIRST occurrence in the text, whatever the POS tags of later ones. */
  lemma {:induction false} FirstOccurrenceDecides(p: Pipeline, tokens: seq<Token>, dictionary: map<string, string>, i: nat)
    requires i < |tokens| && tokens[i].text !in dictionary
    requires p.clean(tokens[i].text) != ""
    requires forall h :: 0 <= h < i ==> tokens[h].text != tokens[i].text
    ensures tokens[i].text in Run(p, tokens, dictionary).dictionary
    ensures Run(p, tokens, dictionary).dictionary[tokens[i].text] ==
      p.normalise(p.clean(tokens[i].text), tokens[i])
  {
    var init := tokens[..|tokens| - 1];
    if i == |tokens| - 1 {
      assert forall h :: 0 <= h < |init| ==> init[h] == tokens[h];
      DictionaryKeys(p, init, dictionary);
      NotBefore(p, init, tokens[i].text);
      StepAdds(p, Run(p, init, dictionary), tokens[i]);
    } else {
      assert init[i] == tokens[i];
      FirstOccurrenceDecides(p, init, dictionary, i);
      StepKeeps(p, Run(p, init, dictionary), tokens[|tokens| - 1], tokens[i].text);
    }
  }

  lemma StepAdds(p: Pipeline, st: CleanState, token: Token)
    requires token.text !in st.dictionary && p.clean(token.text) != ""
    ensures token.text in Step(p, st, token).dictionary
    ensures Step(p, st, token).dictionary[token.text] == p.normalise(p.clean(token.text), token)
  {
  }

  lemma StepKeeps(p: Pipeline, st: CleanState, token: Token, raw: string)
    requires raw in st.dictionary
    ensures raw in Step(p, st, token).dictionary && Step(p, st, token).dictionary[raw] == st.dictionary[raw]
  {
  }

  /** The tokens' cached values, for every token whose raw text is a key of
      `dictionary`, in token order. */
  function Lookup(tokens: seq<Token>, dictionary: map<string, string>): (r: seq<string>)
    ensures |r| <= |tokens|
  {
    if tokens == [] then []
    else
      var last := tokens[|tokens| - 1];
      Lookup(tokens[..|tokens| - 1], dictionary) + (if last.text in dictionary then [dictionary[last.text]] else [])
  }

  lemma {:induction false} LookupStable(tokens: seq<Token>, d: map<string, string>, d': map<string, string>)
    requires forall i :: 0 <= i < |tokens| ==>
      (tokens[i].text in d <==> tokens[i].text in d') && (tokens[i].text in d ==> d'[tokens[i].text] == d[tokens[i].text])
    ensures Lookup(tokens, d) == Lookup(tokens, d')
  {
    if tokens != [] {
      LookupStable(tokens[..|tokens| - 1], d, d');
    }
  }

  /** The output of `clean_text`, before joining, is the final dictionary
      looked up at every token, in token order: a raw token always emits the
      same value, and a token that cleans to `""` (and was not cached
      before) emits nothing. Every token of the text is then either a key
      of the dictionary or cleans to `""`. */
  lemma {:induction false} RunIsLookup(p: Pipeline, tokens: seq<Token>, dictionary: map<string, string>)
    ensures Run(p, tokens, dictionary).result == Lookup(tokens, Run(p, tokens, dictionary).dictionary)
    ensures forall i :: 0 <= i < |tokens| ==>
      tokens[i].text in Run(p, tokens, dictionary).dictionary || p.clean(tokens[i].text) == ""
  {
    if tokens != [] {
      var init, last := tokens[..|tokens| - 1], tokens[|tokens| - 1];
      RunIsLookup(p, init, dictionary);
      var st := Run(p, init, dictionary);
      var st' := Step(p, st, last);
      assert Run(p, tokens, dictionary) == st';
      StepKeys(p, st, last);
      StepValues(p, st, last);
      LookupStable(init, st.dictionary, st'.dictionary);
      assert Lookup(tokens, st'.dictionary) == Lookup(init, st'.dictionary) +
        (if last.text in st'.dictionary then [st'.dictionary[last.text]] else []);
      forall i | 0 <= i < |tokens|
        ensures tokens[i].text in st'.dictionary || p.clean(tokens[i].text) == ""
      {
        if i < |init| {
          assert tokens[i] == init[i];
        }
      }
    }
  }

  /** `clean_text` emits at most one stem per token. */
  lemma CleanTextLength(p: Pipeline, tokens: seq<Token>, dictionary: map<string, string>)
    ensures |Run(p, tokens, dictionary).result| <= |tokens|
  {
    RunIsLookup(p, tokens, dictionary);
  }

  /** When no cached stem holds whitespace, splitting the joined text on
      whitespace gives back the non-empty stems in order, which is how the
      inverted index reads the cleaned speech. */
  lemma CleanTextSplits(p: Pipeline, tokens: seq<Token>, dictionary: map<string, string>)
    requires forall k :: k in Run(p, tokens, dictionary).dictionary ==> Text.NoSpace(Run(p, tokens, dictionary).dictionary[k])
    ensures Text.Split(Text.Join(Run(p, tokens, dictionary).result)) == Text.NonEmpty(Run(p, tokens, dictionary).result)
  {
    var st := Run(p, tokens, dictionary);
    RunIsLookup(p, tokens, dictionary);
    LookupValues(tokens, st.dictionary);
    assert forall k :: 0 <= k < |st.result| ==> st.result[k] in st.result;
    Text.SplitJoin(st.result);
  }

  lemma {:induction false} LookupValues(tokens: seq<Token>, dictionary: map<string, string>)
    ensures forall w :: w in Lookup(tokens, dictionary) ==> w in dictionary.Values
  {
    if tokens != [] {
      LookupValues(tokens[..|tokens| - 1], dictionary);
    }
  }
}
