/** `2_preprocess_abstracts.py`: the row filters and derived columns applied
    to the author table and the journal table before topic modelling. A
    table is a sequence of rows; reassigning a table variable is reassigning
    a local sequence. Tagging (`nlp.pipe`) is an oracle `tagger` from a text
    to its tokens, and a trained phrase model is an oracle `phrases` from
    the corpus it was trained on and one document to that document's
    tokens with bigrams merged. */
module PreprocessAbstracts {
  import opened Wrappers
  import opened Text
  import opened Tables
  import opened Settings
  import opened Crossref
  import opened Preprocessing

  // ---------------------------------------------------------------------------
  // Dropping withdrawn, retracted, errata and similar articles

  /** The title words that mark a row as not being a research article. */
  const Blacklist: seq<string> := [
    "withdrawn", "retracted", "errata", "correction", "retraction",
    "editorial", "issue information", "journal information"
  ]

  /** The lowercased title contains `word`. */
  predicate Mentions(p: Publication, word: string) {
    Contains(Lower(p.title), word)
  }

  /** The title mentions one of `words`; defined from the last word back, as
      the loop adds them. */
  predicate MentionsAny(p: Publication, words: seq<string>)
    decreases |words|
  {
    |words| > 0 && (MentionsAny(p, words[..|words| - 1]) || Mentions(p, words[|words| - 1]))
  }

  lemma {:induction false} MentionsAnyIff(p: Publication, words: seq<string>)
    ensures MentionsAny(p, words) <==> exists k :: 0 <= k < |words| && Mentions(p, words[k])
    decreases |words|
  {
    if |words| > 0 {
      var init := words[..|words| - 1];
      MentionsAnyIff(p, init);
      assert forall k :: 0 <= k < |init| ==> init[k] == words[k];
    }
  }

  /** The mask keeping rows that mention none of `words`. */
  function Avoiding(words: seq<string>): Publication -> bool {
    (p: Publication) => !MentionsAny(p, words)
  }

  /** The mask keeping rows that do not mention `word`. */
  function AvoidingWord(word: string): Publication -> bool {
    (p: Publication) => !Mentions(p, word)
  }

  /** The rows whose titles mention no blacklisted word, in order. */
  function WithoutBlacklisted(rows: seq<Publication>): seq<Publication> {
    Filter(rows, Avoiding(Blacklist))
  }

  /** Narrowing by one more word is filtering by the longer word list. */
  lemma AvoidingStep(rows: seq<Publication>, words: seq<string>, word: string)
    ensures Filter(Filter(rows, Avoiding(words)), AvoidingWord(word)) == Filter(rows, Avoiding(words + [word]))
  {
    var longer := words + [word];
    assert longer[..|longer| - 1] == words && longer[|longer| - 1] == word;
    assert forall p :: Avoiding(longer)(p) == (Avoiding(words)(p) && AvoidingWord(word)(p));
    FilterFilter(rows, Avoiding(words), AvoidingWord(word), Avoiding(longer));
  }

  /** The loop over a word list, narrowing both tables word by word. */
  method DropMentioning(authorData: seq<Publication>, journalData: seq<Publication>, words: seq<string>)
    returns (authorKept: seq<Publication>, journalKept: seq<Publication>)
    ensures authorKept == Filter(authorData, Avoiding(words))
    ensures journalKept == Filter(journalData, Avoiding(words))
  {
    authorKept := authorData;
    journalKept := journalData;
    assert words[..0] == [];
    FilterAllPass(authorData, Avoiding(words[..0]));
    FilterAllPass(journalData, Avoiding(words[..0]));
    for i := 0 to |words|
      invariant authorKept == Filter(authorData, Avoiding(words[..i]))
      invariant journalKept == Filter(journalData, Avoiding(words[..i]))
    {
      var word := words[i];
      assert words[..i + 1] == words[..i] + [word];
      AvoidingStep(authorData, words[..i], word);
      AvoidingStep(journalData, words[..i], word);
      authorKept := Filter(authorKept, AvoidingWord(word));
      journalKept := Filter(journalKept, AvoidingWord(word));
    }
    assert words[..|words|] == words;
  }

  /** The blacklist step of the script. */
  method DropBlacklisted(authorData: seq<Publication>, journalData: seq<Publication>)
    returns (authorKept: seq<Publication>, journalKept: seq<Publication>)
    ensures authorKept == WithoutBlacklisted(authorData)
    ensures journalKept == WithoutBlacklisted(journalData)
  {
    authorKept, journalKept := DropMentioning(authorData, journalData, Blacklist);
  }

  /** After the blacklist step no title mentions a listed word, and a row
      whose title mentions none of them is kept. */
  lemma BlacklistMeaning(rows: seq<Publication>, p: Publication)
    ensures p in WithoutBlacklisted(rows) <==>
      p in rows && forall k :: 0 <= k < |Blacklist| ==> !Mentions(p, Blacklist[k])
  {
    MentionsAnyIff(p, Blacklist);
  }

  // ---------------------------------------------------------------------------
  // The cleaned abstract column

  /** A row with its "Abstract_clean" column. */
  datatype Row = Row(pub: Publication, abstractClean: string)

  /** `astype(str)` of an abstract: a missing one renders as "None". */
  function AsStr(a: Option<string>): string {
    match a
    case None => "None"
    case Some(s) => s
  }

  /** The "Abstract" column. */
  function Abstracts(rows: seq<Publication>): (r: seq<Option<string>>)
    ensures |r| == |rows|
  {
    seq(|rows|, i requires 0 <= i < |rows| => rows[i].abstractText)
  }

  /** One row's "Abstract_clean": every pattern stripped in turn, then rendered. */
  function CleanedAbstract(a: Option<string>, patterns: seq<string>, replace: (string, string) -> string): string {
    match a
    case None => "None"
    case Some(s) => StripPatterns(s, patterns, replace)
  }

  /** The table with its cleaned abstract column attached. */
  function CleanColumn(rows: seq<Publication>, patterns: seq<string>, replace: (string, string) -> string): (r: seq<Row>)
    ensures |r| == |rows|
  {
    seq(|rows|, i requires 0 <= i < |rows| => Row(rows[i], CleanedAbstract(rows[i].abstractText, patterns, replace)))
  }

  /** `remove_noncontent_statements(df["Abstract"]).astype(str)` assigned as
      the new column; fails when the pattern settings are missing. */
  method CleanAbstracts(rows: seq<Publication>, regexes: Option<seq<string>>, replace: (string, string) -> string)
    returns (r: Result<seq<Row>, ConfigError>)
    ensures regexes.None? ==> r == Err(MissingKey("Non-content Regexes"))
    ensures regexes.Some? ==> r == Ok(CleanColumn(rows, regexes.value, replace))
  {
    var column := RemoveNoncontentStatements(Abstracts(rows), regexes, replace);
    if column.Err? {
      return Err(column.error);
    }
    ApplyPatternsPointwise(Abstracts(rows), regexes.value, replace);
    var cleaned := seq(|rows|, i requires 0 <= i < |rows| => Row(rows[i], AsStr(column.value[i])));
    assert cleaned == CleanColumn(rows, regexes.value, replace);
    return Ok(cleaned);
  }

  /** The cleaned abstract is not "none" in any letter case. */
  predicate NotNone(r: Row) {
    Lower(r.abstractClean) != "none"
  }

  /** The cleaned abstract is not blank. */
  predicate NotBlank(r: Row) {
    Strip(r.abstractClean) != ""
  }

  /** A row that keeps an abstract after the "none" and blank filters. */
  predicate HasAbstract(r: Row) {
    NotNone(r) && NotBlank(r)
  }

  /** The three filters dropping rows without an abstract. The `notna`
      filter keeps every row: after `astype(str)` no value is missing. */
  method DropMissingAbstracts(rows: seq<Row>) returns (kept: seq<Row>)
    ensures kept == Filter(rows, HasAbstract)
  {
    kept := rows;
    kept := Filter(kept, NotNone);
    kept := Filter(kept, NotBlank);
    FilterFilter(rows, NotNone, NotBlank, HasAbstract);
  }

  /** A missing abstract renders as "None" and is dropped. */
  lemma MissingAbstractDropped(p: Publication, patterns: seq<string>, replace: (string, string) -> string)
    requires p.abstractText.None?
    ensures !HasAbstract(Row(p, CleanedAbstract(p.abstractText, patterns, replace)))
  {
    var l := Lower("None");
    assert l[0] == 'n' && l[1] == 'o' && l[2] == 'n' && l[3] == 'e';
    assert l == "none";
  }

  // ---------------------------------------------------------------------------
  // The cleaning steps together

  /** A table after the blacklist and, for the journal table, the DOI
      de-duplication keeping the first row of each DOI. */
  function Deduplicated(rows: seq<Publication>, dedup: bool): seq<Publication> {
    if dedup then DropDuplicates(WithoutBlacklisted(rows), DoiOf) else WithoutBlacklisted(rows)
  }

  /** A table after the blacklist, the optional DOI de-duplication, abstract
      cleaning and the missing-abstract filters. */
  function CleanCorpus(rows: seq<Publication>, dedup: bool, patterns: seq<string>, replace: (string, string) -> string): seq<Row> {
    Filter(CleanColumn(Deduplicated(rows, dedup), patterns, replace), HasAbstract)
  }

  /** Blacklist both tables, de-duplicate the journal table by DOI (not the
      author table, which keeps one row per co-author), clean both abstract
      columns and drop the rows without an abstract. */
  method CleanCorpora(authorData: seq<Publication>, journalData: seq<Publication>,
                      regexes: Option<seq<string>>, replace: (string, string) -> string)
    returns (r: Result<(seq<Row>, seq<Row>), ConfigError>)
    ensures regexes.None? ==> r == Err(MissingKey("Non-content Regexes"))
    ensures regexes.Some? ==>
      r == Ok((CleanCorpus(authorData, false, regexes.value, replace), CleanCorpus(journalData, true, regexes.value, replace)))
  {
    var authorKept, journalKept := DropBlacklisted(authorData, journalData);
    journalKept := DropDuplicates(journalKept, DoiOf);
    var authorClean := CleanAbstracts(authorKept, regexes, replace);
    if authorClean.Err? {
      return Err(authorClean.error);
    }
    // The second reading of the same settings cannot fail after the first.
    var journalClean := CleanAbstracts(journalKept, regexes, replace);
    var authorRows := DropMissingAbstracts(authorClean.value);
    var journalRows := DropMissingAbstracts(journalClean.value);
    return Ok((authorRows, journalRows));
  }

  /** The publications of a table of rows. */
  function PubsOf(rows: seq<Row>): (r: seq<Publication>)
    ensures |r| == |rows|
  {
    seq(|rows|, i requires 0 <= i < |rows| => rows[i].pub)
  }

  lemma {:induction false} PubsOfFilter(rows: seq<Row>, p: Row -> bool)
    ensures IsSubsequence(PubsOf(Filter(rows, p)), PubsOf(rows))
  {
    if |rows| > 0 {
      var rest := Filter(rows[1..], p);
      PubsOfFilter(rows[1..], p);
      assert PubsOf(rows) == [rows[0].pub] + PubsOf(rows[1..]);
      if p(rows[0]) {
        assert PubsOf([rows[0]] + rest) == [rows[0].pub] + PubsOf(rest);
        assert ([rows[0].pub] + PubsOf(rest))[1..] == PubsOf(rest);
        assert ([rows[0].pub] + PubsOf(rows[1..]))[1..] == PubsOf(rows[1..]);
      } else {
        assert Filter(rows, p) == [] + rest;
        assert [] + rest == rest;
        SubsequenceCons(PubsOf(rest), rows[0].pub, PubsOf(rows[1..]));
      }
    }
  }

  lemma DeduplicatedRows(rows: seq<Publication>, dedup: bool)
    ensures IsSubsequence(Deduplicated(rows, dedup), rows)
    ensures forall p :: p in Deduplicated(rows, dedup) ==> p in WithoutBlacklisted(rows)
  {
    var kept := WithoutBlacklisted(rows);
    FilterIsSubsequence(rows, Avoiding(Blacklist));
    if dedup {
      DedupSubsequence(kept, DoiOf, {});
      SubsequenceTrans(Deduplicated(rows, dedup), kept, rows);
      SubsequenceMembers(Deduplicated(rows, dedup), kept);
    }
  }

  /** The rows left carry input publications unchanged, in the input's order. */
  lemma CleanCorpusOrder(rows: seq<Publication>, dedup: bool, patterns: seq<string>, replace: (string, string) -> string)
    ensures IsSubsequence(PubsOf(CleanCorpus(rows, dedup, patterns, replace)), rows)
  {
    var unique := Deduplicated(rows, dedup);
    var column := CleanColumn(unique, patterns, replace);
    DeduplicatedRows(rows, dedup);
    assert PubsOf(column) == unique;
    PubsOfFilter(column, HasAbstract);
    SubsequenceTrans(PubsOf(CleanCorpus(rows, dedup, patterns, replace)), unique, rows);
  }

  /** Every row left has an input publication with no blacklisted title
      word, a cleaned abstract that is the patterns applied to its own
      abstract, and that abstract not "none" or blank. */
  lemma CleanCorpusRow(rows: seq<Publication>, dedup: bool, patterns: seq<string>, replace: (string, string) -> string, x: Row)
    requires x in CleanCorpus(rows, dedup, patterns, replace)
    ensures x.pub in rows && HasAbstract(x)
    ensures x.abstractClean == CleanedAbstract(x.pub.abstractText, patterns, replace)
    ensures forall k :: 0 <= k < |Blacklist| ==> !Mentions(x.pub, Blacklist[k])
  {
    var unique := Deduplicated(rows, dedup);
    var column := CleanColumn(unique, patterns, replace);
    var i :| 0 <= i < |column| && column[i] == x;
    assert x.pub == unique[i] && unique[i] in unique;
    DeduplicatedRows(rows, dedup);
    BlacklistMeaning(rows, x.pub);
  }

  /** The journal table holds at most one row per DOI. */
  lemma JournalDoisDistinct(rows: seq<Publication>, patterns: seq<string>, replace: (string, string) -> string)
    ensures DistinctKeys(PubsOf(CleanCorpus(rows, true, patterns, replace)), DoiOf)
  {
    var unique := Deduplicated(rows, true);
    var column := CleanColumn(unique, patterns, replace);
    DedupDistinct(WithoutBlacklisted(rows), DoiOf, {});
    assert DistinctKeys(column, (x: Row) => x.pub.doi) by {
      assert forall i :: 0 <= i < |column| ==> column[i].pub == unique[i];
    }
    FilterDistinct(column, HasAbstract, (x: Row) => x.pub.doi);
    var out := Filter(column, HasAbstract);
    assert forall i :: 0 <= i < |out| ==> PubsOf(out)[i].doi == out[i].pub.doi;
  }

  /** An author row survives whenever its title mentions no listed word and
      its cleaned abstract is present, even when another row has its DOI. */
  lemma AuthorRowSurvives(rows: seq<Publication>, p: Publication, patterns: seq<string>, replace: (string, string) -> string)
    requires p in rows
    requires forall k :: 0 <= k < |Blacklist| ==> !Mentions(p, Blacklist[k])
    requires HasAbstract(Row(p, CleanedAbstract(p.abstractText, patterns, replace)))
    ensures Row(p, CleanedAbstract(p.abstractText, patterns, replace)) in CleanCorpus(rows, false, patterns, replace)
  {
    BlacklistMeaning(rows, p);
    var kept := WithoutBlacklisted(rows);
    var i :| 0 <= i < |kept| && kept[i] == p;
    assert CleanColumn(kept, patterns, replace)[i] == Row(p, CleanedAbstract(p.abstractText, patterns, replace));
  }

  /** A journal row survives when it is the first surviving row with its DOI. */
  lemma JournalRowSurvives(rows: seq<Publication>, p: Publication, patterns: seq<string>, replace: (string, string) -> string)
    requires p in WithoutBlacklisted(rows)
    requires forall q :: q in WithoutBlacklisted(rows) && q.doi == p.doi ==> q == p
    requires HasAbstract(Row(p, CleanedAbstract(p.abstractText, patterns, replace)))
    ensures Row(p, CleanedAbstract(p.abstractText, patterns, replace)) in CleanCorpus(rows, true, patterns, replace)
  {
    var kept := WithoutBlacklisted(rows);
    var i := FirstOccurrence(kept, p);
    assert forall j :: 0 <= j < i ==> kept[j] in kept;
    DedupKeepsFirst(kept, DoiOf, {}, i);
    var unique := Deduplicated(rows, true);
    var m :| 0 <= m < |unique| && unique[m] == p;
    assert CleanColumn(unique, patterns, replace)[m] == Row(p, CleanedAbstract(p.abstractText, patterns, replace));
  }

  /** Two co-authors' rows for one paper both stay in the author table. */
  lemma CoauthorRowsKept(p: Publication, q: Publication, patterns: seq<string>, replace: (string, string) -> string)
    requires p != q && p.doi == q.doi
    requires forall k :: 0 <= k < |Blacklist| ==> !Mentions(p, Blacklist[k]) && !Mentions(q, Blacklist[k])
    requires HasAbstract(Row(p, CleanedAbstract(p.abstractText, patterns, replace)))
    requires HasAbstract(Row(q, CleanedAbstract(q.abstractText, patterns, replace)))
    ensures |CleanCorpus([p, q], false, patterns, replace)| == 2
  {
    var rp := Row(p, CleanedAbstract(p.abstractText, patterns, replace));
    var rq := Row(q, CleanedAbstract(q.abstractText, patterns, replace));
    AuthorRowSurvives([p, q], p, patterns, replace);
    AuthorRowSurvives([p, q], q, patterns, replace);
    var authors := CleanCorpus([p, q], false, patterns, replace);
    assert |Deduplicated([p, q], false)| <= 2;
    assert |authors| <= 2;
    assert rp != rq;
  }

  /** The same two rows in the journal table leave only the first. */
  lemma SharedDoiOnceInJournalTable(p: Publication, q: Publication, patterns: seq<string>, replace: (string, string) -> string)
    requires p.doi == q.doi
    requires forall k :: 0 <= k < |Blacklist| ==> !Mentions(p, Blacklist[k]) && !Mentions(q, Blacklist[k])
    requires HasAbstract(Row(p, CleanedAbstract(p.abstractText, patterns, replace)))
    ensures CleanCorpus([p, q], true, patterns, replace) == [Row(p, CleanedAbstract(p.abstractText, patterns, replace))]
  {
    var rp := Row(p, CleanedAbstract(p.abstractText, patterns, replace));
    MentionsAnyIff(p, Blacklist);
    MentionsAnyIff(q, Blacklist);
    FilterAllPass([p, q], Avoiding(Blacklist));
    assert [p, q][1..] == [q] && [q][1..] == [];
    var seen: set<string> := {} + {DoiOf(p)};
    assert seen == {p.doi};
    assert DedupFrom([q], DoiOf, seen) == [];
    assert DropDuplicates([p, q], DoiOf) == DedupFrom([p, q], DoiOf, {}) == [p] + DedupFrom([q], DoiOf, seen);
    assert Deduplicated([p, q], true) == [p];
    assert CleanColumn([p], patterns, replace) == [rp];
    assert [rp][1..] == [];
  }

  /** A journal table is already deduplicated per ISSN when it is parsed, so
      a second `drop_duplicates` on one parsed table changes nothing; only
      DOIs shared across ISSNs are removed by the pass over the concatenation. */
  lemma JournalTableDedupAgain(works: seq<Work>)
    requires TableOf(None, works).Ok?
    ensures DropDuplicates(TableOf(None, works).value, DoiOf) == TableOf(None, works).value
  {
    DropDuplicatesIdempotent(RowsOf(None, works).value, DoiOf);
  }

  // ---------------------------------------------------------------------------
  // Derived columns

  /** "Full_name": the first name, a space and the last name. */
  function FullName(n: Name): string {
    n.first + " " + n.last
  }

  /** Splitting a full name at its space gives the two names back when
      neither contains a space. */
  lemma FullNameRoundTrip(n: Name)
    requires ' ' !in n.first && ' ' !in n.last
    ensures Split(FullName(n), ' ') == [n.first, n.last]
  {
    assert FullName(n) == n.first + [' '] + n.last;
    SplitAtSeparator(n.first, n.last, ' ');
    SplitNoSeparator(n.last, ' ');
  }

  /** "Abstract_bigram_ws": the tokens joined by single spaces. */
  function BigramWs(words: seq<string>): string {
    Join(words, " ")
  }

  /** The joined tokens split back into the tokens when none contains a space. */
  lemma BigramWsRoundTrip(words: seq<string>)
    requires |words| > 0
    requires forall i :: 0 <= i < |words| ==> ' ' !in words[i]
    ensures Split(BigramWs(words), ' ') == words
  {
    SplitJoin(words, ' ');
  }

  /** A row with its derived columns: "Full_name" (author table only),
      "Abstract_preprocessed", "Abstract_w_bigrams" and "Abstract_bigram_ws". */
  datatype Prepared = Prepared(row: Row, fullName: Option<string>, preprocessed: seq<string>,
                               bigrams: seq<string>, bigramWs: string)

  function FullNameOf(r: Row, withFullName: bool): Option<string> {
    if withFullName && r.pub.author.Some? then Some(FullName(r.pub.author.value)) else None
  }

  /** The tagged documents of a table, one per row. */
  function Docs(rows: seq<Row>, tagger: string -> seq<Token>): (r: seq<seq<Token>>)
    ensures |r| == |rows|
  {
    seq(|rows|, i requires 0 <= i < |rows| => tagger(rows[i].abstractClean))
  }

  /** The derived columns of a table: each document preprocessed with all
      three flags set, the phrase model trained on the whole preprocessed
      corpus applied to each document, and the result joined by spaces. */
  function Prepare(rows: seq<Row>, withFullName: bool, tagger: string -> seq<Token>, stopwords: seq<string>,
                   phrases: (seq<seq<string>>, seq<string>) -> seq<string>): (r: seq<Prepared>)
    ensures |r| == |rows|
  {
    var pre := PreprocessAll(Docs(rows, tagger), Flags(true, true, true), stopwords);
    seq(|rows|, i requires 0 <= i < |rows| =>
      Prepared(rows[i], FullNameOf(rows[i], withFullName), pre[i], phrases(pre, pre[i]), BigramWs(phrases(pre, pre[i]))))
  }

  /** Tag, preprocess and merge phrases in one table; fails when the
      stopword settings are missing. */
  method PrepareCorpus(rows: seq<Row>, withFullName: bool, tagger: string -> seq<Token>,
                       custom: Option<seq<string>>, standard: seq<string>,
                       phrases: (seq<seq<string>>, seq<string>) -> seq<string>)
    returns (r: Result<seq<Prepared>, ConfigError>)
    ensures custom.None? ==> r == Err(MissingKey("Custom Stopwords"))
    ensures custom.Some? ==> r == Ok(Prepare(rows, withFullName, tagger, custom.value + standard, phrases))
  {
    var docs := Docs(rows, tagger);
    var preprocessed := PreprocessDocs(docs, true, true, true, custom, standard);
    if preprocessed.Err? {
      return Err(preprocessed.error);
    }
    var pre := preprocessed.value;
    var prepared := seq(|rows|, i requires 0 <= i < |rows| =>
      var bigrams := phrases(pre, pre[i]);
      Prepared(rows[i], FullNameOf(rows[i], withFullName), pre[i], bigrams, BigramWs(bigrams)));
    assert pre == PreprocessAll(Docs(rows, tagger), Flags(true, true, true), custom.value + standard);
    assert prepared == Prepare(rows, withFullName, tagger, custom.value + standard, phrases);
    return Ok(prepared);
  }

  /** `w` is the lemma of one of the document's surviving tokens, lowercased and stripped. */
  predicate LemmaOfSurvivor(w: string, doc: seq<Token>, f: Flags, stopwords: seq<string>) {
    exists t :: t in Survivors(doc, f, stopwords) && w == Strip(Lower(t.lemmaForm))
  }

  /** With lemmatizing on, every output word is a surviving token's lemma,
      lowercased and stripped. */
  lemma LemmatizedWords(doc: seq<Token>, f: Flags, stopwords: seq<string>)
    requires f.lemmatize
    ensures forall k :: 0 <= k < |PreprocessDoc(doc, f, stopwords)| ==>
      LemmaOfSurvivor(PreprocessDoc(doc, f, stopwords)[k], doc, f, stopwords)
  {
    forall k | 0 <= k < |PreprocessDoc(doc, f, stopwords)|
      ensures LemmaOfSurvivor(PreprocessDoc(doc, f, stopwords)[k], doc, f, stopwords)
    {
      EmittedFromSurvivor(doc, f, stopwords, k);
      var t :| t in Survivors(doc, f, stopwords) && PreprocessDoc(doc, f, stopwords)[k] == Strip(Lower(Form(t, f)));
      assert Form(t, f) == t.lemmaForm;
    }
  }

  /** Each preprocessed word of a row is the lowercased, stripped form of one
      of its abstract's surviving tokens, its joined column splits back into
      its bigram tokens, and an author row's full name is its two names. */
  lemma PreparedRow(rows: seq<Row>, withFullName: bool, tagger: string -> seq<Token>, stopwords: seq<string>,
                    phrases: (seq<seq<string>>, seq<string>) -> seq<string>, i: int)
    requires 0 <= i < |rows|
    ensures var x := Prepare(rows, withFullName, tagger, stopwords, phrases)[i];
      var f := Flags(true, true, true);
      var doc := tagger(rows[i].abstractClean);
      x.row == rows[i] &&
      (forall k :: 0 <= k < |x.preprocessed| ==> LemmaOfSurvivor(x.preprocessed[k], doc, f, stopwords)) &&
      (|x.bigrams| > 0 && (forall k :: 0 <= k < |x.bigrams| ==> ' ' !in x.bigrams[k]) ==>
        Split(x.bigramWs, ' ') == x.bigrams) &&
      (withFullName && rows[i].pub.author.Some? ==> x.fullName == Some(FullName(rows[i].pub.author.value)))
  {
    var x := Prepare(rows, withFullName, tagger, stopwords, phrases)[i];
    var doc := tagger(rows[i].abstractClean);
    assert x.preprocessed == PreprocessDoc(doc, Flags(true, true, true), stopwords);
    LemmatizedWords(doc, Flags(true, true, true), stopwords);
    assert x.fullName == FullNameOf(rows[i], withFullName);
    if |x.bigrams| > 0 && (forall k :: 0 <= k < |x.bigrams| ==> ' ' !in x.bigrams[k]) {
      BigramWsRoundTrip(x.bigrams);
    }
  }

  // ---------------------------------------------------------------------------
  // main, without loading, saving and printing

  /** The whole script: clean both tables, then derive the columns of the
      author table (with full names) and of the journal table. */
  method PreprocessCorpora(authorData: seq<Publication>, journalData: seq<Publication>,
                           regexes: Option<seq<string>>, replace: (string, string) -> string,
                           tagger: string -> seq<Token>, custom: Option<seq<string>>, standard: seq<string>,
                           phrases: (seq<seq<string>>, seq<string>) -> seq<string>)
    returns (r: Result<(seq<Prepared>, seq<Prepared>), ConfigError>)
    ensures regexes.None? ==> r == Err(MissingKey("Non-content Regexes"))
    ensures regexes.Some? && custom.None? ==> r == Err(MissingKey("Custom Stopwords"))
    ensures regexes.Some? && custom.Some? ==>
      var stopwords := custom.value + standard;
      r == Ok((Prepare(CleanCorpus(authorData, false, regexes.value, replace), true, tagger, stopwords, phrases),
               Prepare(CleanCorpus(journalData, true, regexes.value, replace), false, tagger, stopwords, phrases)))
  {
    var cleaned := CleanCorpora(authorData, journalData, regexes, replace);
    if cleaned.Err? {
      return Err(cleaned.error);
    }
    var (authorRows, journalRows) := cleaned.value;
    var authorPrepared := PrepareCorpus(authorRows, true, tagger, custom, standard, phrases);
    if authorPrepared.Err? {
      return Err(authorPrepared.error);
    }
    // The second reading of the same settings cannot fail after the first.
    var journalPrepared := PrepareCorpus(journalRows, false, tagger, custom, standard, phrases);
    return Ok((authorPrepared.value, journalPrepared.value));
  }
}
