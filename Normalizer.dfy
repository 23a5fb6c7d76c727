/**
 * The text normalizer `preprocess_text`: lower-case the comment, replace
 * every character that is neither a word character nor whitespace by a
 * space, tokenize, keep the tokens that are not stopwords (a small set of
 * negation and intensifier words is taken out of the stopword set) and are
 * alphanumeric, lemmatize each kept token as a verb, and join the lemmas
 * with single spaces. Any failure of a foreign call gives the empty string.
 */
module Normalizer {
  import opened Wrappers
  import opened PyStr
  import Counters

  /**
   * The foreign calls `preprocess_text` depends on, taken as oracles.
   * `None` stands for a call that raises.
   */
  datatype TextLib = TextLib(
    lower: string -> string,                  // str.lower
    isAlnumChar: char -> bool,                // str.isalnum of one character (Unicode database)
    tokenize: string -> Option<seq<string>>,  // nltk word_tokenize
    stopwords: Option<set<string>>,           // set(stopwords.words('english'))
    lemmatizeVerb: string -> Option<string>   // WordNetLemmatizer().lemmatize(token, pos='v')
  )

  /** The words removed from the stopword set, so that they are never filtered out as stopwords. */
  const Preserved: set<string> := {"not", "no", "very", "too", "only", "but", "and"}

  /** `\w` in a `str` regex: an alphanumeric character or the underscore. */
  predicate IsWordChar(lib: TextLib, c: char)
  {
    lib.isAlnumChar(c) || c == '_'
  }

  /** `t.isalnum()`: non-empty, and every character alphanumeric. */
  predicate IsAlnum(lib: TextLib, t: string)
  {
    |t| > 0 && forall i :: 0 <= i < |t| ==> lib.isAlnumChar(t[i])
  }

  /** `re.sub(r'[^\w\s]', ' ', text)`. */
  function ReplaceNonWord(lib: TextLib, text: string): (r: string)
    ensures |r| == |text|
    ensures forall i :: 0 <= i < |r| ==> IsWordChar(lib, r[i]) || IsSpace(r[i])
    ensures forall i :: 0 <= i < |r| ==> (IsWordChar(lib, text[i]) || IsSpace(text[i])) ==> r[i] == text[i]
    ensures forall i :: 0 <= i < |r| ==> r[i] == text[i] || r[i] == ' '
  {
    if text == [] then []
    else
      var c := text[0];
      [if IsWordChar(lib, c) || IsSpace(c) then c else ' '] + ReplaceNonWord(lib, text[1..])
  }

  /** The test of the comprehension's `if`: not a stopword once the preserved words are removed, and alphanumeric. */
  predicate Keep(lib: TextLib, stop: set<string>, t: string)
  {
    t !in stop - Preserved && IsAlnum(lib, t)
  }

  /** The tokens that pass the filter, in their original order; the test is made before lemmatization. */
  function KeptTokens(lib: TextLib, stop: set<string>, tokens: seq<string>): (kept: seq<string>)
    ensures |kept| <= |tokens|
    ensures forall i :: 0 <= i < |kept| ==> Keep(lib, stop, kept[i])
  {
    if tokens == [] then []
    else
      var last := tokens[|tokens| - 1];
      KeptTokens(lib, stop, tokens[..|tokens| - 1]) + (if Keep(lib, stop, last) then [last] else [])
  }

  /** Lemmatizes every token once; `None` if any call raises. */
  function LemmatizeAll(lemmatize: string -> Option<string>, tokens: seq<string>): (r: Option<seq<string>>)
    ensures r.Some? <==> forall i :: 0 <= i < |tokens| ==> lemmatize(tokens[i]).Some?
    ensures r.Some? ==> |r.value| == |tokens|
    ensures r.Some? ==> forall i :: 0 <= i < |tokens| ==> r.value[i] == lemmatize(tokens[i]).value
  {
    if tokens == [] then Some([])
    else
      match lemmatize(tokens[0])
      case None => None
      case Some(l) =>
        match LemmatizeAll(lemmatize, tokens[1..])
        case None => None
        case Some(rest) => Some([l] + rest)
  }

  /** The list of lemmas that `preprocess_text` joins; `None` when a foreign call raises. */
  function ProcessedTokens(lib: TextLib, text: string): Option<seq<string>>
  {
    match lib.tokenize(ReplaceNonWord(lib, lib.lower(text)))
    case None => None
    case Some(tokens) =>
      match lib.stopwords
      case None => None
      case Some(stop) => LemmatizeAll(lib.lemmatizeVerb, KeptTokens(lib, stop, tokens))
  }

  /** `preprocess_text(text)`. */
  function Preprocess(lib: TextLib, text: string): string
  {
    match ProcessedTokens(lib, text)
    case None => ""
    case Some(lemmas) => Join(lemmas, " ")
  }

  // ------------------------------------------------------------------ lemmas

  /** Filtering distributes over concatenation, so it keeps the tokens' order. */
  lemma {:induction false} KeptTokensAppend(lib: TextLib, stop: set<string>, a: seq<string>, b: seq<string>)
    ensures KeptTokens(lib, stop, a + b) == KeptTokens(lib, stop, a) + KeptTokens(lib, stop, b)
    decreases |b|
  {
    if b == [] {
      assert a + b == a;
    } else {
      KeptTokensAppend(lib, stop, a, b[..|b| - 1]);
      assert (a + b)[..|a + b| - 1] == a + b[..|b| - 1];
    }
  }

  /** A token survives exactly when it occurs among the tokenizer's tokens and passes the filter. */
  lemma {:induction false} KeptTokensMembers(lib: TextLib, stop: set<string>, tokens: seq<string>, t: string)
    ensures t in KeptTokens(lib, stop, tokens) <==> t in tokens && Keep(lib, stop, t)
  {
    if tokens != [] {
      var init := tokens[..|tokens| - 1];
      KeptTokensMembers(lib, stop, init, t);
      assert tokens == init + [tokens[|tokens| - 1]];
    }
  }

  /**
   * Every occurrence of a preserved word that is alphanumeric survives the
   * filter, whatever the stopword list holds.
   */
  lemma {:induction false} PreservedWordsSurvive(lib: TextLib, stop: set<string>, tokens: seq<string>, w: string)
    requires w in Preserved && IsAlnum(lib, w)
    ensures Counters.Occurrences(KeptTokens(lib, stop, tokens), w) == Counters.Occurrences(tokens, w)
  {
    if tokens != [] {
      var init := tokens[..|tokens| - 1];
      var last := tokens[|tokens| - 1];
      PreservedWordsSurvive(lib, stop, init, w);
      Counters.OccurrencesAppend(KeptTokens(lib, stop, init), if Keep(lib, stop, last) then [last] else [], w);
    }
  }

  /** What `preprocess_text` returns, case by case. */
  lemma PreprocessCases(lib: TextLib, text: string)
    ensures var cleaned := ReplaceNonWord(lib, lib.lower(text));
      match lib.tokenize(cleaned)
      case None => Preprocess(lib, text) == ""
      case Some(tokens) =>
        match lib.stopwords
        case None => Preprocess(lib, text) == ""
        case Some(stop) =>
          var kept := KeptTokens(lib, stop, tokens);
          if forall i :: 0 <= i < |kept| ==> lib.lemmatizeVerb(kept[i]).Some? then
            exists lemmas: seq<string> ::
              && |lemmas| == |kept| <= |tokens|
              && (forall i :: 0 <= i < |kept| ==> lemmas[i] == lib.lemmatizeVerb(kept[i]).value)
              && Preprocess(lib, text) == Join(lemmas, " ")
          else Preprocess(lib, text) == ""
  {
    var cleaned := ReplaceNonWord(lib, lib.lower(text));
    match lib.tokenize(cleaned)
    case None =>
    case Some(tokens) =>
      match lib.stopwords
      case None =>
      case Some(stop) =>
        var kept := KeptTokens(lib, stop, tokens);
        match LemmatizeAll(lib.lemmatizeVerb, kept)
        case None =>
        case Some(lemmas) =>
          assert Preprocess(lib, text) == Join(lemmas, " ");
  }

  /**
   * When every call succeeds, each preserved alphanumeric word of the
   * tokenizer's output reaches the processed text, as its lemma, as many
   * times as it occurs.
   */
  lemma PreservedWordsReachOutput(lib: TextLib, text: string, tokens: seq<string>, stop: set<string>, w: string)
    requires lib.tokenize(ReplaceNonWord(lib, lib.lower(text))) == Some(tokens)
    requires lib.stopwords == Some(stop)
    requires w in Preserved && IsAlnum(lib, w) && w in tokens
    requires ProcessedTokens(lib, text).Some?
    ensures lib.lemmatizeVerb(w).Some? && lib.lemmatizeVerb(w).value in ProcessedTokens(lib, text).value
  {
    var kept := KeptTokens(lib, stop, tokens);
    KeptTokensMembers(lib, stop, tokens, w);
    var i :| 0 <= i < |kept| && kept[i] == w;
    assert ProcessedTokens(lib, text).value[i] == lib.lemmatizeVerb(w).value;
  }

  /**
   * Line 195 splits each processed comment again with `str.split()`; when
   * every lemma is a non-empty run without whitespace, that gives back
   * exactly the lemma list.
   */
  lemma ResplitProcessed(lib: TextLib, text: string)
    requires ProcessedTokens(lib, text).Some?
    requires var ls := ProcessedTokens(lib, text).value;
      forall k :: 0 <= k < |ls| ==> ls[k] != [] && NoSpace(ls[k])
    ensures SplitWs(Preprocess(lib, text)) == ProcessedTokens(lib, text).value
  {
    SplitWsOfJoin(ProcessedTokens(lib, text).value);
  }
}
