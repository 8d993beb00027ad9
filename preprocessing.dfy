/** `src/preprocessing.py`: the stopword list, the token filter of
    `preprocess_docs`, and the ordered pattern stripping of
    `remove_noncontent_statements`. Tagging is given: a document is the
    sequence of its tokens. Pattern replacement is an oracle `replace`
    taking a pattern and a text to the text with every match removed. */
module Preprocessing {
  import opened Wrappers
  import opened Text
  import opened Tables
  import opened Settings

  /** spaCy's coarse part-of-speech tags (`token.pos_`), the universal tag set. */
  datatype Pos =
    | ADJ | ADP | ADV | AUX | CCONJ | DET | INTJ | NOUN | NUM | PART
    | PRON | PROPN | PUNCT | SCONJ | SYM | VERB | X | SPACE

  /** One tagged token: its part-of-speech tag, its lemma and its surface text. */
  datatype Token = Token(pos: Pos, lemmaForm: string, text: string)

  /** The tags dropped when non-word characters are removed. */
  const NonWordPos: set<Pos> := {PUNCT, SYM, NUM, X, PART}

  // ---------------------------------------------------------------------------
  // get_stopwords

  /** `settings["Custom Stopwords"] + stops`; a missing key fails the assertion. */
  function GetStopwords(custom: Option<seq<string>>, standard: seq<string>): (r: Result<seq<string>, ConfigError>)
    ensures r.Err? <==> custom.None?
    ensures r.Err? ==> r.error == MissingKey("Custom Stopwords")
    ensures r.Ok? ==> |r.value| == |custom.value| + |standard|
    ensures r.Ok? ==> r.value[..|custom.value|] == custom.value && r.value[|custom.value|..] == standard
  {
    match custom
    case None => Err(MissingKey("Custom Stopwords"))
    case Some(words) => Ok(words + standard)
  }

  /** A word is a stopword exactly when it is a custom or a standard one. */
  lemma StopwordMembership(custom: seq<string>, standard: seq<string>, w: string)
    ensures w in GetStopwords(Some(custom), standard).value <==> w in custom || w in standard
  {
    var all := GetStopwords(Some(custom), standard).value;
    if w in all {
      var k :| 0 <= k < |all| && all[k] == w;
      if k >= |custom| {
        assert standard[k - |custom|] == w;
      }
    }
  }

  // ---------------------------------------------------------------------------
  // preprocess_docs

  /** The flags of `preprocess_docs`. */
  datatype Flags = Flags(removeStops: bool, removeNwcs: bool, lemmatize: bool)

  /** The form the filter looks at: the lemma when lemmatizing, else the text. */
  function Form(t: Token, f: Flags): string {
    if f.lemmatize then t.lemmaForm else t.text
  }

  /** Whether a token survives the three tests, in the source's order. The
      length test reads the raw form; the stopword test its lowercased form. */
  predicate Keep(t: Token, f: Flags, stopwords: seq<string>) {
    !(f.removeNwcs && t.pos in NonWordPos) &&
    |Form(t, f)| > 2 &&
    !(f.removeStops && Lower(Form(t, f)) in stopwords)
  }

  /** What a surviving token contributes: `form.lower().strip()`. */
  function Emit(t: Token, f: Flags): string {
    Strip(Lower(Form(t, f)))
  }

  /** One document's output list. */
  function PreprocessDoc(doc: seq<Token>, f: Flags, stopwords: seq<string>): (r: seq<string>)
    ensures |r| <= |doc|
  {
    if |doc| == 0 then []
    else (if Keep(doc[0], f, stopwords) then [Emit(doc[0], f)] else []) + PreprocessDoc(doc[1..], f, stopwords)
  }

  /** Every document's output list, one per document, in order. */
  function PreprocessAll(docs: seq<seq<Token>>, f: Flags, stopwords: seq<string>): (r: seq<seq<string>>)
    ensures |r| == |docs|
    ensures forall i :: 0 <= i < |docs| ==> r[i] == PreprocessDoc(docs[i], f, stopwords)
  {
    seq(|docs|, i requires 0 <= i < |docs| => PreprocessDoc(docs[i], f, stopwords))
  }

  /** The emitted forms of `ts`, in order. */
  function EmitAll(ts: seq<Token>, f: Flags): (r: seq<string>)
    ensures |r| == |ts|
  {
    if |ts| == 0 then [] else [Emit(ts[0], f)] + EmitAll(ts[1..], f)
  }

  /** The tokens of a document that survive, in order. */
  function Survivors(doc: seq<Token>, f: Flags, stopwords: seq<string>): seq<Token> {
    Filter(doc, (t: Token) => Keep(t, f, stopwords))
  }

  /** The loop's output is the emitted forms of the surviving tokens. */
  lemma {:induction false} PreprocessDocIsEmittedSurvivors(doc: seq<Token>, f: Flags, stopwords: seq<string>)
    ensures PreprocessDoc(doc, f, stopwords) == EmitAll(Survivors(doc, f, stopwords), f)
  {
    if |doc| > 0 {
      PreprocessDocIsEmittedSurvivors(doc[1..], f, stopwords);
      var keep := (t: Token) => Keep(t, f, stopwords);
      var rest := Survivors(doc[1..], f, stopwords);
      var tail := PreprocessDoc(doc[1..], f, stopwords);
      assert tail == EmitAll(rest, f);
      if Keep(doc[0], f, stopwords) {
        var e := Emit(doc[0], f);
        assert Survivors(doc, f, stopwords) == [doc[0]] + rest;
        assert PreprocessDoc(doc, f, stopwords) == [e] + tail;
        assert ([doc[0]] + rest)[1..] == rest;
        assert EmitAll([doc[0]] + rest, f) == [e] + EmitAll(rest, f);
      } else {
        assert Survivors(doc, f, stopwords) == rest;
        assert PreprocessDoc(doc, f, stopwords) == [] + tail;
        assert [] + tail == tail;
      }
    }
  }

  /** A token survives exactly when it passes the three tests: non-word tags
      go when `removeNwcs` is set, short forms always go, and stopwords
      (compared lowercased) go when `removeStops` is set. Survivors keep
      their relative order. */
  lemma SurvivorsMeaning(doc: seq<Token>, f: Flags, stopwords: seq<string>, t: Token)
    ensures t in Survivors(doc, f, stopwords) <==>
      t in doc && !(f.removeNwcs && t.pos in NonWordPos) && |Form(t, f)| > 2 &&
      !(f.removeStops && Lower(Form(t, f)) in stopwords)
    ensures IsSubsequence(Survivors(doc, f, stopwords), doc)
  {
    FilterIsSubsequence(doc, (t: Token) => Keep(t, f, stopwords));
  }

  lemma {:induction false} EmitAllAt(ts: seq<Token>, f: Flags, k: int)
    requires 0 <= k < |ts|
    ensures EmitAll(ts, f)[k] == Emit(ts[k], f)
  {
    if k > 0 {
      EmitAllAt(ts[1..], f, k - 1);
    }
  }

  /** Every output string is the lowercased, stripped form of a surviving token. */
  lemma EmittedFromSurvivor(doc: seq<Token>, f: Flags, stopwords: seq<string>, k: int)
    requires 0 <= k < |PreprocessDoc(doc, f, stopwords)|
    ensures exists t :: t in Survivors(doc, f, stopwords) && PreprocessDoc(doc, f, stopwords)[k] == Strip(Lower(Form(t, f)))
  {
    PreprocessDocIsEmittedSurvivors(doc, f, stopwords);
    var s := Survivors(doc, f, stopwords);
    EmitAllAt(s, f, k);
    assert s[k] in s;
  }

  /** With `removeNwcs` set, dropping the non-word tokens beforehand changes nothing. */
  lemma {:induction false} NonWordTokensContributeNothing(doc: seq<Token>, f: Flags, stopwords: seq<string>)
    requires f.removeNwcs
    ensures PreprocessDoc(Filter(doc, (t: Token) => t.pos !in NonWordPos), f, stopwords) == PreprocessDoc(doc, f, stopwords)
  {
    if |doc| > 0 {
      NonWordTokensContributeNothing(doc[1..], f, stopwords);
      var words := (t: Token) => t.pos !in NonWordPos;
      var rest := Filter(doc[1..], words);
      if words(doc[0]) {
        assert Filter(doc, words) == [doc[0]] + rest;
        assert ([doc[0]] + rest)[1..] == rest;
      } else {
        assert Filter(doc, words) == rest;
        assert !Keep(doc[0], f, stopwords);
        assert [] + PreprocessDoc(doc[1..], f, stopwords) == PreprocessDoc(doc[1..], f, stopwords);
      }
    }
  }

  /** A whitespace token such as spaCy's `"\n\n\n"` is long enough and no
      stopword, so it survives and contributes the empty string. */
  lemma WhitespaceTokenEmitsEmpty(f: Flags, stopwords: seq<string>)
    requires f.lemmatize && "\n\n\n" !in stopwords
    ensures PreprocessDoc([Token(SPACE, "\n\n\n", "\n\n\n")], f, stopwords) == [""]
  {
    var t := Token(SPACE, "\n\n\n", "\n\n\n");
    assert Lower("\n\n\n") == "\n\n\n";
    assert Keep(t, f, stopwords);
    StripEmptyIffBlank("\n\n\n");
    assert [t][1..] == [];
  }

  /** The invariant of the token loop: the document's output is `acc`
      followed by the output for the tokens from `k` on. */
  ghost predicate TokensPending(doc: seq<Token>, f: Flags, stopwords: seq<string>, acc: seq<string>, k: int)
    requires 0 <= k <= |doc|
  {
    PreprocessDoc(doc, f, stopwords) == acc + PreprocessDoc(doc[k..], f, stopwords)
  }

  /** One step of the token loop: the token at `k` contributes its
      emitted form when it survives, nothing otherwise. */
  lemma PreprocessDocStep(doc: seq<Token>, f: Flags, stopwords: seq<string>, k: int)
    requires 0 <= k < |doc|
    ensures PreprocessDoc(doc[k..], f, stopwords) ==
      (if Keep(doc[k], f, stopwords) then [Emit(doc[k], f)] else []) + PreprocessDoc(doc[k + 1..], f, stopwords)
  {
    assert doc[k..][0] == doc[k] && doc[k..][1..] == doc[k + 1..];
  }

  /** A dropped token leaves the output as it is. */
  lemma SkipToken(doc: seq<Token>, f: Flags, stopwords: seq<string>, acc: seq<string>, k: int)
    requires 0 <= k < |doc| && TokensPending(doc, f, stopwords, acc, k)
    requires !Keep(doc[k], f, stopwords)
    ensures TokensPending(doc, f, stopwords, acc, k + 1)
  {
    PreprocessDocStep(doc, f, stopwords, k);
    var rest := PreprocessDoc(doc[k + 1..], f, stopwords);
    assert [] + rest == rest;
  }

  /** A kept token appends its emitted form. */
  lemma KeepToken(doc: seq<Token>, f: Flags, stopwords: seq<string>, acc: seq<string>, k: int)
    requires 0 <= k < |doc| && TokensPending(doc, f, stopwords, acc, k)
    requires Keep(doc[k], f, stopwords)
    ensures TokensPending(doc, f, stopwords, acc + [Emit(doc[k], f)], k + 1)
  {
    PreprocessDocStep(doc, f, stopwords, k);
    var rest := PreprocessDoc(doc[k + 1..], f, stopwords);
    assert acc + ([Emit(doc[k], f)] + rest) == (acc + [Emit(doc[k], f)]) + rest;
  }

  /** The inner loop of `preprocess_docs`: one document's tokens appended
      to `preprocessed_doc`. */
  method PreprocessTokens(doc: seq<Token>, removeStops: bool, removeNwcs: bool, lemmatize: bool, stopwords: seq<string>)
    returns (preprocessedDoc: seq<string>)
    ensures preprocessedDoc == PreprocessDoc(doc, Flags(removeStops, removeNwcs, lemmatize), stopwords)
  {
    ghost var f := Flags(removeStops, removeNwcs, lemmatize);
    preprocessedDoc := [];
    assert [] + PreprocessDoc(doc[0..], f, stopwords) == PreprocessDoc(doc, f, stopwords) by {
      assert doc[0..] == doc;
    }
    for k := 0 to |doc|
      invariant TokensPending(doc, f, stopwords, preprocessedDoc, k)
    {
      var token := doc[k];
      if removeNwcs && token.pos in {PUNCT, SYM, NUM, X, PART} {
        SkipToken(doc, f, stopwords, preprocessedDoc, k);
        continue;
      }
      var form := if lemmatize then token.lemmaForm else token.text;
      assert form == Form(token, f);
      if |form| <= 2 {
        SkipToken(doc, f, stopwords, preprocessedDoc, k);
        continue;
      }
      var lowered := Lower(form);
      if removeStops && lowered in stopwords {
        SkipToken(doc, f, stopwords, preprocessedDoc, k);
        continue;
      }
      KeepToken(doc, f, stopwords, preprocessedDoc, k);
      var cleaned := Strip(lowered);
      preprocessedDoc := preprocessedDoc + [cleaned];
    }
    assert doc[|doc|..] == [];
    assert preprocessedDoc + [] == preprocessedDoc;
  }

  /** `preprocess_docs`: the outer loop appending to `preprocessed`; fails when
      the stopword settings are missing. */
  method PreprocessDocs(docs: seq<seq<Token>>, removeStops: bool, removeNwcs: bool, lemmatize: bool,
                        custom: Option<seq<string>>, standard: seq<string>)
    returns (r: Result<seq<seq<string>>, ConfigError>)
    ensures custom.None? ==> r == Err(MissingKey("Custom Stopwords"))
    ensures custom.Some? ==>
      r == Ok(PreprocessAll(docs, Flags(removeStops, removeNwcs, lemmatize), custom.value + standard))
  {
    var stops := GetStopwords(custom, standard);
    if stops.Err? {
      return Err(stops.error);
    }
    var stopwords := stops.value;
    assert stopwords == custom.value + standard;
    ghost var f := Flags(removeStops, removeNwcs, lemmatize);
    var preprocessed: seq<seq<string>> := [];
    for d := 0 to |docs|
      invariant |preprocessed| == d
      invariant forall i :: 0 <= i < d ==> preprocessed[i] == PreprocessDoc(docs[i], f, stopwords)
    {
      var preprocessedDoc := PreprocessTokens(docs[d], removeStops, removeNwcs, lemmatize, stopwords);
      preprocessed := preprocessed + [preprocessedDoc];
    }
    assert preprocessed == PreprocessAll(docs, f, stopwords);
    return Ok(preprocessed);
  }

  // ---------------------------------------------------------------------------
  // remove_noncontent_statements

  /** `texts.replace(pattern, "", regex=True)` on a column: strings are
      rewritten, missing values are left as they are. */
  function ReplaceColumn(texts: seq<Option<string>>, pattern: string, replace: (string, string) -> string)
    : (r: seq<Option<string>>)
    ensures |r| == |texts|
    ensures forall i :: 0 <= i < |texts| ==>
      r[i] == (if texts[i].Some? then Some(replace(pattern, texts[i].value)) else None)
  {
    seq(|texts|, i requires 0 <= i < |texts| =>
      if texts[i].Some? then Some(replace(pattern, texts[i].value)) else None)
  }

  /** The patterns applied one after the other, the first one first. */
  function ApplyPatterns(texts: seq<Option<string>>, patterns: seq<string>, replace: (string, string) -> string)
    : seq<Option<string>>
    decreases |patterns|
  {
    if |patterns| == 0 then texts
    else ApplyPatterns(ReplaceColumn(texts, patterns[0], replace), patterns[1..], replace)
  }

  /** The patterns applied to one string. */
  function StripPatterns(s: string, patterns: seq<string>, replace: (string, string) -> string): string
    decreases |patterns|
  {
    if |patterns| == 0 then s else StripPatterns(replace(patterns[0], s), patterns[1..], replace)
  }

  /** Each entry is rewritten on its own: a string gets every pattern in turn, a
      missing value stays missing, and the column keeps its length. */
  lemma {:induction false} ApplyPatternsPointwise(texts: seq<Option<string>>, patterns: seq<string>, replace: (string, string) -> string)
    ensures |ApplyPatterns(texts, patterns, replace)| == |texts|
    ensures forall i :: 0 <= i < |texts| ==>
      ApplyPatterns(texts, patterns, replace)[i] ==
        (if texts[i].Some? then Some(StripPatterns(texts[i].value, patterns, replace)) else None)
    decreases |patterns|
  {
    if |patterns| > 0 {
      ApplyPatternsPointwise(ReplaceColumn(texts, patterns[0], replace), patterns[1..], replace);
    }
  }

  /** Patterns are applied in their configured order: a list of patterns
      followed by more is the first list's stripping, then the second's. */
  lemma {:induction false} ApplyPatternsAppend(texts: seq<Option<string>>, ps: seq<string>, qs: seq<string>, replace: (string, string) -> string)
    ensures ApplyPatterns(texts, ps + qs, replace) == ApplyPatterns(ApplyPatterns(texts, ps, replace), qs, replace)
    decreases |ps|
  {
    if |ps| == 0 {
      assert ps + qs == qs;
    } else {
      assert (ps + qs)[0] == ps[0] && (ps + qs)[1..] == ps[1..] + qs;
      ApplyPatternsAppend(ReplaceColumn(texts, ps[0], replace), ps[1..], qs, replace);
    }
  }

  /** A pattern that matches nowhere (its replacement changes no text) can be
      dropped from the list. */
  lemma {:induction false} IneffectivePatternDropped(texts: seq<Option<string>>, p: string, qs: seq<string>, replace: (string, string) -> string)
    requires forall i :: 0 <= i < |texts| && texts[i].Some? ==> replace(p, texts[i].value) == texts[i].value
    ensures ApplyPatterns(texts, [p] + qs, replace) == ApplyPatterns(texts, qs, replace)
  {
    assert ([p] + qs)[0] == p && ([p] + qs)[1..] == qs;
    assert ReplaceColumn(texts, p, replace) == texts;
  }

  /** `remove_noncontent_statements`: the loop over the configured patterns;
      fails when the pattern settings are missing. */
  method RemoveNoncontentStatements(texts: seq<Option<string>>, regexes: Option<seq<string>>,
                                    replace: (string, string) -> string)
    returns (r: Result<seq<Option<string>>, ConfigError>)
    ensures regexes.None? ==> r == Err(MissingKey("Non-content Regexes"))
    ensures regexes.Some? ==> r == Ok(ApplyPatterns(texts, regexes.value, replace))
    ensures regexes == Some([]) ==> r == Ok(texts)
  {
    if regexes.None? {
      return Err(MissingKey("Non-content Regexes"));
    }
    var patterns := regexes.value;
    var current := texts;
    for i := 0 to |patterns|
      invariant ApplyPatterns(texts, patterns, replace) == ApplyPatterns(current, patterns[i..], replace)
    {
      assert patterns[i..][0] == patterns[i] && patterns[i..][1..] == patterns[i + 1..];
      current := ReplaceColumn(current, patterns[i], replace);
    }
    assert patterns[|patterns|..] == [];
    return Ok(current);
  }
}
