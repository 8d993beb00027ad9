/** The record-handling rules of `src/crossref.py`: ISSN selection, the
    author-query URL, the single author query, and the two work parsers. */
module Crossref {
  import opened Wrappers
  import opened Text
  import opened Tables
  import opened Settings

  /** One entry of a work's `author` list; a missing `given`/`family` key is `None`. */
  datatype Author = Author(given: Option<string>, family: Option<string>)

  /** A work record of a Crossref response. An absent or empty `title` is `[]`;
      `pubYear` is `published.date-parts[0][0]`. */
  datatype Work = Work(
    doi: string,
    title: seq<string>,
    kind: string,
    authors: seq<Author>,
    containerTitle: seq<string>,
    abstractText: Option<string>,
    pubYear: int,
    citations: int)

  /** The queried author's name, stored on every author-sourced row. */
  datatype Name = Name(first: string, last: string)

  /** One table row. `author` is present for the author-sourced table
      (`First_name`, `Last_name`) and absent for the journal-sourced table. */
  datatype Publication = Publication(
    author: Option<Name>,
    doi: string,
    title: string,
    journal: string,
    abstractText: Option<string>,
    pubYear: int,
    citations: int)

  function DoiOf(p: Publication): string { p.doi }

  /** `work["container-title"][0]` on an empty list raises `IndexError`. */
  datatype ParseError = EmptyContainerTitle(doi: string)

  /** The `ISSNs` object of the settings: journal name to its ISSNs, in file order. */
  type IssnMap = seq<(string, seq<string>)>

  /** A Crossref HTTP response: the status code and the decoded JSON body. */
  datatype Response = Response(
    httpStatus: int,
    status: string,
    items: seq<Work>,
    totalResults: int,
    itemsPerPage: int)

  datatype QueryError =
    | Config(config: ConfigError)
    | HttpError(code: int)
    | StatusNotOk(status: string)

  /** `raise_for_status` raises on client and server error codes. */
  predicate RaisesForStatus(code: int) {
    400 <= code < 600
  }

  /** The checks every query applies to its response, in the source's order. */
  function Checked(resp: Response): (r: Result<Response, QueryError>)
    ensures r.Ok? <==> !RaisesForStatus(resp.httpStatus) && resp.status == "ok"
    ensures r.Ok? ==> r.value == resp
  {
    if RaisesForStatus(resp.httpStatus) then Err(HttpError(resp.httpStatus))
    else if resp.status != "ok" then Err(StatusNotOk(resp.status))
    else Ok(resp)
  }

  // ---------------------------------------------------------------------------
  // get_issn_list

  /** Every ISSN of the mapping, journal by journal. */
  function AllIssns(m: IssnMap): seq<string> {
    if |m| == 0 then [] else m[0].1 + AllIssns(m[1..])
  }

  /** `journal in journals` for a string key and a decoded JSON list. */
  predicate Named(journals: seq<Json>, journal: string) {
    JStr(journal) in journals
  }

  /** The ISSNs of the journals named in `journals`, in the mapping's order. */
  function SelectedIssns(m: IssnMap, journals: seq<Json>): seq<string> {
    if |m| == 0 then []
    else (if Named(journals, m[0].0) then m[0].1 else []) + SelectedIssns(m[1..], journals)
  }

  /** `get_issn_list(journals)`: all ISSNs when `journals` is `None` or empty. */
  function GetIssnList(issns: Option<IssnMap>, journals: Option<seq<Json>>): (r: Result<seq<string>, ConfigError>)
    ensures r.Err? <==> issns.None?
    ensures r.Err? ==> r.error == MissingKey("ISSNs")
    ensures issns.Some? && (journals.None? || journals.value == []) ==> r == Ok(AllIssns(issns.value))
    ensures issns.Some? && journals.Some? && journals.value != [] ==> r == Ok(SelectedIssns(issns.value, journals.value))
  {
    match issns
    case None => Err(MissingKey("ISSNs"))
    case Some(m) =>
      if journals.Some? && |journals.value| > 0 then Ok(SelectedIssns(m, journals.value)) else Ok(AllIssns(m))
  }

  /** An ISSN is selected exactly when some journal named in the list carries it. */
  lemma {:induction false} SelectedIssnsMembership(m: IssnMap, journals: seq<Json>, x: string)
    ensures x in SelectedIssns(m, journals) <==>
      exists k :: 0 <= k < |m| && Named(journals, m[k].0) && x in m[k].1
  {
    if |m| > 0 {
      SelectedIssnsMembership(m[1..], journals, x);
      if exists k :: 0 <= k < |m| && Named(journals, m[k].0) && x in m[k].1 {
        var k :| 0 <= k < |m| && Named(journals, m[k].0) && x in m[k].1;
        if k > 0 {
          assert m[1..][k - 1] == m[k];
        }
      }
      if exists k :: 0 <= k < |m| - 1 && Named(journals, m[1..][k].0) && x in m[1..][k].1 {
        var k :| 0 <= k < |m| - 1 && Named(journals, m[1..][k].0) && x in m[1..][k].1;
        assert m[k + 1] == m[1..][k];
      }
    }
  }

  /** The selection follows the mapping's order: it is a subsequence of all ISSNs. */
  lemma {:induction false} SelectedIssnsInMappingOrder(m: IssnMap, journals: seq<Json>)
    ensures IsSubsequence(SelectedIssns(m, journals), AllIssns(m))
  {
    if |m| > 0 {
      SelectedIssnsInMappingOrder(m[1..], journals);
      if Named(journals, m[0].0) {
        SubsequencePrependBoth(m[0].1, SelectedIssns(m[1..], journals), AllIssns(m[1..]));
      } else {
        assert SelectedIssns(m, journals) == SelectedIssns(m[1..], journals);
        SubsequencePrepend(SelectedIssns(m[1..], journals), m[0].1, AllIssns(m[1..]));
      }
    }
  }

  /** Only which names the list holds matters, not their order or repetition. */
  lemma {:induction false} SelectedIssnsIgnoreListOrder(m: IssnMap, js: seq<Json>, js': seq<Json>)
    requires forall j :: j in js <==> j in js'
    ensures SelectedIssns(m, js) == SelectedIssns(m, js')
  {
    if |m| > 0 {
      SelectedIssnsIgnoreListOrder(m[1..], js, js');
    }
  }

  /** A name that is not a journal of the mapping changes nothing. */
  lemma {:induction false} UnknownJournalIgnored(m: IssnMap, journals: seq<Json>, unknown: string)
    requires journals != []
    requires forall k :: 0 <= k < |m| ==> m[k].0 != unknown
    ensures GetIssnList(Some(m), Some(journals + [JStr(unknown)])) == GetIssnList(Some(m), Some(journals))
  {
    UnknownJournalIgnoredRec(m, journals, unknown);
  }

  lemma {:induction false} UnknownJournalIgnoredRec(m: IssnMap, journals: seq<Json>, unknown: string)
    requires forall k :: 0 <= k < |m| ==> m[k].0 != unknown
    ensures SelectedIssns(m, journals + [JStr(unknown)]) == SelectedIssns(m, journals)
  {
    if |m| > 0 {
      assert Named(journals + [JStr(unknown)], m[0].0) == Named(journals, m[0].0);
      UnknownJournalIgnoredRec(m[1..], journals, unknown);
    }
  }

  // ---------------------------------------------------------------------------
  // get_works_by_name

  const WorksEndpoint := "https://api.crossref.org/works?"

  /** The `,issn:X` filter terms, one per ISSN, in order. */
  function IssnFilter(issns: seq<string>): string {
    if |issns| == 0 then "" else ",issn:" + issns[0] + IssnFilter(issns[1..])
  }

  /** The author query URL of `get_works_by_name`. */
  function AuthorQueryUrl(fname: string, lname: string, sYear: int, issns: seq<string>): string {
    WorksEndpoint + "query.author=" + fname + "+" + lname
    + "&filter=from-pub-date:" + IntToString(sYear) + "-01-01"
    + IssnFilter(issns) + "&rows=1000"
  }

  lemma {:induction false} IssnFilterAppend(issns: seq<string>, x: string)
    ensures IssnFilter(issns + [x]) == IssnFilter(issns) + ",issn:" + x
  {
    if |issns| > 0 {
      assert (issns + [x])[1..] == issns[1..] + [x];
      IssnFilterAppend(issns[1..], x);
    } else {
      assert [x][1..] == [];
    }
  }

  /** Reads the ISSNs back out of a filter string: the comma-separated terms
      after the leading comma, each without its `issn:` prefix. */
  function IssnsOfFilter(f: string): seq<string> {
    var terms := Split(f, ',')[1..];
    seq(|terms|, i requires 0 <= i < |terms| => if "issn:" <= terms[i] then terms[i][5..] else terms[i])
  }

  /** The filter terms `issn:X`, one per ISSN. */
  function FilterTerms(issns: seq<string>): (r: seq<string>)
    ensures |r| == |issns|
    ensures forall i :: 0 <= i < |issns| ==> r[i] == "issn:" + issns[i]
  {
    seq(|issns|, i requires 0 <= i < |issns| => "issn:" + issns[i])
  }

  lemma TermHasNoComma(x: string)
    requires ',' !in x
    ensures ',' !in "issn:" + x
  {
    assert forall c :: c in "issn:" + x ==> c in "issn:" || c in x;
  }

  lemma {:induction false} SplitTermAndFilter(term: string, issns: seq<string>)
    requires ',' !in term
    requires forall i :: 0 <= i < |issns| ==> ',' !in issns[i]
    ensures Split(term + IssnFilter(issns), ',') == [term] + FilterTerms(issns)
    decreases |issns|
  {
    if |issns| == 0 {
      assert term + IssnFilter(issns) == term;
      SplitNoSeparator(term, ',');
    } else {
      var next := "issn:" + issns[0];
      TermHasNoComma(issns[0]);
      assert term + IssnFilter(issns) == term + [','] + (next + IssnFilter(issns[1..]));
      SplitAtSeparator(term, next + IssnFilter(issns[1..]), ',');
      SplitTermAndFilter(next, issns[1..]);
      assert FilterTerms(issns) == [next] + FilterTerms(issns[1..]);
    }
  }

  lemma SplitIssnFilter(issns: seq<string>)
    requires forall i :: 0 <= i < |issns| ==> ',' !in issns[i]
    ensures Split(IssnFilter(issns), ',') == [""] + FilterTerms(issns)
  {
    SplitTermAndFilter("", issns);
    assert "" + IssnFilter(issns) == IssnFilter(issns);
  }

  /** The filter lists exactly the ISSNs given, in order: reading it back
      returns them (ISSNs never contain a comma). */
  lemma IssnFilterRoundTrip(issns: seq<string>)
    requires forall i :: 0 <= i < |issns| ==> ',' !in issns[i]
    ensures IssnsOfFilter(IssnFilter(issns)) == issns
  {
    SplitIssnFilter(issns);
    var terms := Split(IssnFilter(issns), ',')[1..];
    assert |terms| == |issns|;
    forall i | 0 <= i < |issns|
      ensures IssnsOfFilter(IssnFilter(issns))[i] == issns[i]
    {
      assert terms[i] == "issn:" + issns[i];
      assert "issn:" <= terms[i];
      assert terms[i][5..] == issns[i];
    }
  }

  /** The URL is assembled by `+=`, one `,issn:` term per loop turn. */
  method BuildAuthorQueryUrl(fname: string, lname: string, sYear: int, issns: seq<string>) returns (url: string)
    ensures url == AuthorQueryUrl(fname, lname, sYear, issns)
  {
    url := WorksEndpoint;
    url := url + "query.author=" + fname + "+" + lname;
    url := url + "&filter=from-pub-date:" + IntToString(sYear) + "-01-01";
    ghost var head := url;
    for i := 0 to |issns|
      invariant url == head + IssnFilter(issns[..i])
    {
      ghost var filter := IssnFilter(issns[..i]);
      IssnFilterAppend(issns[..i], issns[i]);
      assert issns[..i + 1] == issns[..i] + [issns[i]];
      assert head + (filter + ",issn:" + issns[i]) == head + filter + ",issn:" + issns[i];
      url := url + ",issn:" + issns[i];
    }
    assert issns[..|issns|] == issns;
    url := url + "&rows=1000";
  }

  /** The outcome of `get_works_by_name` against the API `api`. */
  function WorksByName(fname: string, lname: string, sYear: int, issns: Option<IssnMap>, api: string -> Response)
    : (r: Result<seq<Work>, QueryError>)
    ensures issns.None? ==> r == Err(Config(MissingKey("ISSNs")))
    ensures issns.Some? ==>
      var resp := api(AuthorQueryUrl(fname, lname, sYear, AllIssns(issns.value)));
      (r.Ok? <==> !RaisesForStatus(resp.httpStatus) && resp.status == "ok") &&
      (r.Ok? ==> r.value == resp.items)
  {
    match GetIssnList(issns, None)
    case Err(e) => Err(Config(e))
    case Ok(list) =>
      match Checked(api(AuthorQueryUrl(fname, lname, sYear, list)))
      case Err(e) => Err(e)
      case Ok(resp) => Ok(resp.items)
  }

  /** `get_works_by_name`: one request, every configured ISSN in the filter. */
  method GetWorksByName(fname: string, lname: string, sYear: int, issns: Option<IssnMap>, api: string -> Response)
    returns (r: Result<seq<Work>, QueryError>)
    ensures r == WorksByName(fname, lname, sYear, issns, api)
  {
    var list := GetIssnList(issns, None);
    if list.Err? {
      return Err(Config(list.error));
    }
    var url := BuildAuthorQueryUrl(fname, lname, sYear, list.value);
    var response := api(url);
    if RaisesForStatus(response.httpStatus) {
      return Err(HttpError(response.httpStatus));
    }
    if response.status != "ok" {
      return Err(StatusNotOk(response.status));
    }
    return Ok(response.items);
  }

  // ---------------------------------------------------------------------------
  // parse_author_works_to_df / parse_journal_works_to_df

  /** The first filter of both parsers: a non-empty title and type `journal-article`. */
  predicate IsArticle(w: Work) {
    |w.title| > 0 && w.kind == "journal-article"
  }

  /** The author test: both name parts occur, case-folded, in the author's
      `given` and `family` names (a missing part counts as ""). */
  predicate AuthorMatches(name: Name, a: Author) {
    Contains(Lower(a.given.GetOr("")), Lower(name.first)) &&
    Contains(Lower(a.family.GetOr("")), Lower(name.last))
  }

  predicate HasMatchingAuthor(name: Name, authors: seq<Author>) {
    exists k :: 0 <= k < |authors| && AuthorMatches(name, authors[k])
  }

  /** Whether a work yields a row: for the author parser (`name` present) it
      also needs a matching author. */
  predicate Kept(name: Option<Name>, w: Work) {
    IsArticle(w) && (name.None? || HasMatchingAuthor(name.value, w.authors))
  }

  /** The row built from a kept work: title and journal are element 0 of their lists. */
  function RowOf(name: Option<Name>, w: Work): Publication
    requires IsArticle(w) && |w.containerTitle| > 0
  {
    Publication(name, w.doi, w.title[0], w.containerTitle[0], w.abstractText, w.pubYear, w.citations)
  }

  /** The rows appended by the parser loop, before `drop_duplicates`. */
  function RowsOf(name: Option<Name>, works: seq<Work>): Result<seq<Publication>, ParseError> {
    if |works| == 0 then Ok([])
    else if !Kept(name, works[0]) then RowsOf(name, works[1..])
    else if |works[0].containerTitle| == 0 then Err(EmptyContainerTitle(works[0].doi))
    else Prepend([RowOf(name, works[0])], RowsOf(name, works[1..]))
  }

  function Prepend(rows: seq<Publication>, r: Result<seq<Publication>, ParseError>): Result<seq<Publication>, ParseError> {
    match r
    case Ok(rest) => Ok(rows + rest)
    case Err(e) => Err(e)
  }

  lemma PrependAppend(rows: seq<Publication>, row: Publication, r: Result<seq<Publication>, ParseError>)
    ensures Prepend(rows, Prepend([row], r)) == Prepend(rows + [row], r)
  {
    if r.Ok? {
      assert rows + ([row] + r.value) == (rows + [row]) + r.value;
    }
  }

  /** The parsed data frame: the rows with duplicate DOIs dropped, first kept. */
  function TableOf(name: Option<Name>, works: seq<Work>): Result<seq<Publication>, ParseError> {
    match RowsOf(name, works)
    case Ok(rows) => Ok(DropDuplicates(rows, DoiOf))
    case Err(e) => Err(e)
  }

  function KeptWorks(name: Option<Name>, works: seq<Work>): seq<Work> {
    Filter(works, (w: Work) => Kept(name, w))
  }

  lemma KeptWorksUnfold(name: Option<Name>, works: seq<Work>)
    requires |works| > 0
    ensures KeptWorks(name, works) ==
      (if Kept(name, works[0]) then [works[0]] else []) + KeptWorks(name, works[1..])
  {
  }

  /** Every work of `ws` has a container title. */
  predicate AllTitled(ws: seq<Work>) {
    forall i :: 0 <= i < |ws| ==> |ws[i].containerTitle| > 0
  }

  /** `rows` holds one row per work of `kept`, built from it, in order. */
  predicate RowsFor(name: Option<Name>, rows: seq<Publication>, kept: seq<Work>) {
    |rows| == |kept| &&
    forall i :: 0 <= i < |kept| ==>
      IsArticle(kept[i]) && |kept[i].containerTitle| > 0 && rows[i] == RowOf(name, kept[i])
  }

  lemma AllTitledCons(w: Work, tail: seq<Work>)
    ensures AllTitled([w] + tail) <==> |w.containerTitle| > 0 && AllTitled(tail)
  {
    var s := [w] + tail;
    assert s[0] == w;
    assert forall i :: 1 <= i < |s| ==> s[i] == tail[i - 1];
    if |w.containerTitle| > 0 && AllTitled(tail) {
      forall i | 0 <= i < |s| ensures |s[i].containerTitle| > 0 {
        if i > 0 {
          assert s[i] == tail[i - 1];
        }
      }
    }
    if AllTitled(s) {
      forall i | 0 <= i < |tail| ensures |tail[i].containerTitle| > 0 {
        assert tail[i] == s[i + 1];
      }
    }
  }

  lemma RowsForCons(name: Option<Name>, w: Work, rows: seq<Publication>, tail: seq<Work>)
    requires IsArticle(w) && |w.containerTitle| > 0 && RowsFor(name, rows, tail)
    ensures RowsFor(name, [RowOf(name, w)] + rows, [w] + tail)
  {
    assert forall i :: 1 <= i < |[w] + tail| ==> ([w] + tail)[i] == tail[i - 1];
  }

  /** The parser succeeds exactly when every kept work has a container title,
      and then yields one row per kept work, in input order. */
  lemma {:induction false} RowsOfKeptWorks(name: Option<Name>, works: seq<Work>)
    ensures RowsOf(name, works).Ok? <==> AllTitled(KeptWorks(name, works))
    ensures RowsOf(name, works).Ok? ==> RowsFor(name, RowsOf(name, works).value, KeptWorks(name, works))
  {
    if |works| > 0 {
      RowsOfKeptWorks(name, works[1..]);
      KeptWorksUnfold(name, works);
      var kept := KeptWorks(name, works);
      var tail := KeptWorks(name, works[1..]);
      if !Kept(name, works[0]) {
        assert kept == [] + tail == tail;
      } else {
        assert kept == [works[0]] + tail;
        AllTitledCons(works[0], tail);
        if RowsOf(name, works).Ok? {
          var rest := RowsOf(name, works[1..]).value;
          assert RowsOf(name, works).value == [RowOf(name, works[0])] + rest;
          RowsForCons(name, works[0], rest, tail);
        }
      }
    }
  }

  /** Work `i` is the first of `ws` without a container title. */
  predicate FirstUntitledAt(ws: seq<Work>, i: int) {
    0 <= i < |ws| && |ws[i].containerTitle| == 0 &&
    forall j :: 0 <= j < i ==> |ws[j].containerTitle| > 0
  }

  lemma FirstUntitledCons(w: Work, tail: seq<Work>, i: int)
    requires |w.containerTitle| > 0 && FirstUntitledAt(tail, i)
    ensures FirstUntitledAt([w] + tail, i + 1)
  {
    var s := [w] + tail;
    assert s[i + 1] == tail[i];
    forall j | 0 <= j < i + 1 ensures |s[j].containerTitle| > 0 {
      if j > 0 {
        assert s[j] == tail[j - 1];
      }
    }
  }

  /** When the parser fails, it names the first kept work without a container title. */
  lemma {:induction false} RowsOfFirstError(name: Option<Name>, works: seq<Work>)
    requires RowsOf(name, works).Err?
    ensures exists i ::
      FirstUntitledAt(KeptWorks(name, works), i) &&
      RowsOf(name, works).error == EmptyContainerTitle(KeptWorks(name, works)[i].doi)
  {
    KeptWorksUnfold(name, works);
    var kept := KeptWorks(name, works);
    var tail := KeptWorks(name, works[1..]);
    if !Kept(name, works[0]) {
      assert kept == [] + tail == tail;
      RowsOfFirstError(name, works[1..]);
    } else if |works[0].containerTitle| == 0 {
      assert kept[0] == works[0];
      assert FirstUntitledAt(kept, 0);
    } else {
      assert kept == [works[0]] + tail;
      RowsOfFirstError(name, works[1..]);
      var i :| FirstUntitledAt(tail, i) && RowsOf(name, works[1..]).error == EmptyContainerTitle(tail[i].doi);
      FirstUntitledCons(works[0], tail, i);
      assert kept[i + 1] == tail[i];
    }
  }

  /** The parsed table holds at most one row per DOI, each the first kept row
      with that DOI, and keeps the order of the parser's rows. */
  lemma TableOfDeduplicates(name: Option<Name>, works: seq<Work>)
    requires RowsOf(name, works).Ok?
    ensures var rows := RowsOf(name, works).value;
      var table := TableOf(name, works).value;
      && TableOf(name, works).Ok?
      && DistinctKeys(table, DoiOf)
      && IsSubsequence(table, rows)
      && forall i :: 0 <= i < |rows| && (forall j :: 0 <= j < i ==> rows[j].doi != rows[i].doi) ==> rows[i] in table
  {
    var rows := RowsOf(name, works).value;
    DedupDistinct(rows, DoiOf, {});
    DedupSubsequence(rows, DoiOf, {});
    forall i | 0 <= i < |rows| && (forall j :: 0 <= j < i ==> rows[j].doi != rows[i].doi)
      ensures rows[i] in DropDuplicates(rows, DoiOf)
    {
      DedupKeepsFirst(rows, DoiOf, {}, i);
    }
  }

  /** An empty first name matches every author whose family name matches. */
  lemma EmptyFirstNameMatchesAnyGivenName(last: string, a: Author)
    ensures AuthorMatches(Name("", last), a) <==> Contains(Lower(a.family.GetOr("")), Lower(last))
  {
    assert Lower("") == "";
    assert "" <= Lower(a.given.GetOr(""));
  }

  /** The author parser's loop, with the inner `for ... else` author search. */
  method ParseAuthorWorksToDf(fname: string, lname: string, works: seq<Work>)
    returns (r: Result<seq<Publication>, ParseError>)
    ensures r == TableOf(Some(Name(fname, lname)), works)
  {
    var name := Name(fname, lname);
    var rows: seq<Publication> := [];
    assert works[0..] == works;
    var all := RowsOf(Some(name), works);
    assert all.Ok? ==> [] + all.value == all.value;
    for i := 0 to |works|
      invariant RowsOf(Some(name), works) == Prepend(rows, RowsOf(Some(name), works[i..]))
    {
      var work := works[i];
      assert works[i..][0] == work && works[i..][1..] == works[i + 1..];
      if !IsArticle(work) {
        assert RowsOf(Some(name), works[i..]) == RowsOf(Some(name), works[i + 1..]);
        continue;
      }
      var found := false;
      var j := 0;
      while j < |work.authors| && !found
        invariant 0 <= j <= |work.authors|
        invariant found ==> HasMatchingAuthor(name, work.authors)
        invariant !found ==> forall k :: 0 <= k < j ==> !AuthorMatches(name, work.authors[k])
        decreases |work.authors| - j, !found
      {
        if AuthorMatches(name, work.authors[j]) {
          found := true;
        } else {
          j := j + 1;
        }
      }
      if !found {
        assert RowsOf(Some(name), works[i..]) == RowsOf(Some(name), works[i + 1..]);
        continue;
      }
      if |work.containerTitle| == 0 {
        return Err(EmptyContainerTitle(work.doi));
      }
      var row := Publication(Some(name), work.doi, work.title[0], work.containerTitle[0],
                             work.abstractText, work.pubYear, work.citations);
      assert RowsOf(Some(name), works[i..]) == Prepend([row], RowsOf(Some(name), works[i + 1..]));
      PrependAppend(rows, row, RowsOf(Some(name), works[i + 1..]));
      rows := rows + [row];
    }
    assert RowsOf(Some(name), works[|works|..]) == Ok([]);
    assert rows + [] == rows;
    r := Ok(DropDuplicates(rows, DoiOf));
  }

  /** The journal parser's loop: the article filter only. */
  method ParseJournalWorksToDf(works: seq<Work>) returns (r: Result<seq<Publication>, ParseError>)
    ensures r == TableOf(None, works)
  {
    var rows: seq<Publication> := [];
    assert works[0..] == works;
    var all := RowsOf(None, works);
    assert all.Ok? ==> [] + all.value == all.value;
    for i := 0 to |works|
      invariant RowsOf(None, works) == Prepend(rows, RowsOf(None, works[i..]))
    {
      var work := works[i];
      assert works[i..][0] == work && works[i..][1..] == works[i + 1..];
      if !IsArticle(work) {
        assert RowsOf(None, works[i..]) == RowsOf(None, works[i + 1..]);
        continue;
      }
      if |work.containerTitle| == 0 {
        return Err(EmptyContainerTitle(work.doi));
      }
      var row := Publication(None, work.doi, work.title[0], work.containerTitle[0],
                             work.abstractText, work.pubYear, work.citations);
      assert RowsOf(None, works[i..]) == Prepend([row], RowsOf(None, works[i + 1..]));
      PrependAppend(rows, row, RowsOf(None, works[i + 1..]));
      rows := rows + [row];
    }
    assert RowsOf(None, works[|works|..]) == Ok([]);
    assert rows + [] == rows;
    r := Ok(DropDuplicates(rows, DoiOf));
  }
}
