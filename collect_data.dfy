/** `1_collect_data.py`: the sampling-frame checks, the per-scholar and
    per-journal collection loops that accumulate one table per query and
    concatenate them, and the fill-only-if-missing abstract merge with an
    external table keyed by exact title. Waiting between queries is
    recorded as a list of sleep durations. */
module CollectData {
  import opened Wrappers
  import opened Tables
  import opened Settings
  import opened Crossref
  import opened CrossrefPaging
  import opened CrossrefAbstract

  /** Why a collection run stops with an exception. */
  datatype CollectError =
    | Setting(config: ConfigError)
    | Query(query: QueryError)
    | Paging(harvest: HarvestError)
    | Parse(parse: ParseError)
    | NothingToConcatenate

  // ---------------------------------------------------------------------------
  // get_journal_sample_frame

  /** `isinstance(v, int)`, which also holds for `True` and `False`. */
  predicate IsInt(v: Json) {
    v.JInt? || v.JBool?
  }

  /** The integer value of an `int` (a bool counts as 1 or 0). */
  function IntOf(v: Json): int
    requires IsInt(v)
  {
    if v.JInt? then v.i else if v.b then 1 else 0
  }

  /** The assertions of `get_journal_sample_frame`, in the order they are made. */
  function GetJournalSampleFrame(settings: map<string, Json>): (r: Result<(seq<Json>, int), ConfigError>)
    ensures r.Ok? <==>
      "Journal Pub Sample" in settings && settings["Journal Pub Sample"].JObject? &&
      "journals" in settings["Journal Pub Sample"].fields &&
      "start_year" in settings["Journal Pub Sample"].fields &&
      settings["Journal Pub Sample"].fields["journals"].JList? &&
      IsInt(settings["Journal Pub Sample"].fields["start_year"])
    ensures r.Ok? ==>
      r.value.0 == settings["Journal Pub Sample"].fields["journals"].items &&
      r.value.1 == IntOf(settings["Journal Pub Sample"].fields["start_year"])
    ensures "Journal Pub Sample" !in settings ==> r == Err(MissingKey("Journal Pub Sample"))
  {
    if "Journal Pub Sample" !in settings then Err(MissingKey("Journal Pub Sample"))
    else
      var sample := settings["Journal Pub Sample"];
      if !sample.JObject? then Err(WrongType("Journal Pub Sample"))
      else if "journals" !in sample.fields then Err(MissingKey("journals"))
      else if "start_year" !in sample.fields then Err(MissingKey("start_year"))
      else if !sample.fields["journals"].JList? then Err(WrongType("journals"))
      else if !IsInt(sample.fields["start_year"]) then Err(WrongType("start_year"))
      else Ok((sample.fields["journals"].items, IntOf(sample.fields["start_year"])))
  }

  /** Both keys are checked for presence before either is checked for type:
      a missing "start_year" is reported even when "journals" is not a list. */
  lemma PresenceBeforeType(sample: map<string, Json>, other: map<string, Json>)
    requires "journals" in sample && "start_year" !in sample
    ensures GetJournalSampleFrame(other["Journal Pub Sample" := JObject(sample)]) == Err(MissingKey("start_year"))
  {
  }

  /** A well-formed sample gives back the list and the year it holds. */
  lemma SampleFrameRoundTrip(journals: seq<Json>, year: int, settings: map<string, Json>)
    ensures GetJournalSampleFrame(settings["Journal Pub Sample" :=
      JObject(map["journals" := JList(journals), "start_year" := JInt(year)])]) == Ok((journals, year))
  {
    var s := settings["Journal Pub Sample" := JObject(map["journals" := JList(journals), "start_year" := JInt(year)])];
    assert s["Journal Pub Sample"].fields["journals"] == JList(journals);
    assert s["Journal Pub Sample"].fields["start_year"] == JInt(year);
  }

  /** A boolean start year passes the integer check and counts as 1 or 0. */
  lemma BoolStartYearAccepted(journals: seq<Json>, b: bool, settings: map<string, Json>)
    ensures GetJournalSampleFrame(settings["Journal Pub Sample" :=
      JObject(map["journals" := JList(journals), "start_year" := JBool(b)])]) == Ok((journals, if b then 1 else 0))
  {
    var s := settings["Journal Pub Sample" := JObject(map["journals" := JList(journals), "start_year" := JBool(b)])];
    assert s["Journal Pub Sample"].fields["journals"] == JList(journals);
    assert s["Journal Pub Sample"].fields["start_year"] == JBool(b);
  }

  // ---------------------------------------------------------------------------
  // Accumulating one table per query

  /** One entry of the "Scholars" setting. */
  datatype Scholar = Scholar(firstName: string, lastName: string, startYear: int)

  /** The tables of the queries in order, or the first query's failure. */
  function Frames<Q>(qs: seq<Q>, frame: Q -> Result<seq<Publication>, CollectError>)
    : Result<seq<seq<Publication>>, CollectError>
  {
    if |qs| == 0 then Ok([])
    else match frame(qs[0])
      case Err(e) => Err(e)
      case Ok(t) =>
        match Frames(qs[1..], frame)
        case Err(e) => Err(e)
        case Ok(ts) => Ok([t] + ts)
  }

  /** How many queries return before the first failure. */
  function Answered<Q>(qs: seq<Q>, frame: Q -> Result<seq<Publication>, CollectError>): nat {
    if |qs| == 0 || frame(qs[0]).Err? then 0 else 1 + Answered(qs[1..], frame)
  }

  function PrependFrame(t: seq<Publication>, r: Result<seq<seq<Publication>>, CollectError>)
    : Result<seq<seq<Publication>>, CollectError>
  {
    match r
    case Ok(ts) => Ok([t] + ts)
    case Err(e) => Err(e)
  }

  function PrependFrames(done: seq<seq<Publication>>, r: Result<seq<seq<Publication>>, CollectError>)
    : Result<seq<seq<Publication>>, CollectError>
  {
    match r
    case Ok(ts) => Ok(done + ts)
    case Err(e) => Err(e)
  }

  /** The loop succeeds exactly when every query does, and then holds one
      table per query, in query order; otherwise it fails with the first
      failing query's error. */
  lemma {:induction false} FramesMeaning<Q>(qs: seq<Q>, frame: Q -> Result<seq<Publication>, CollectError>)
    ensures Frames(qs, frame).Ok? <==> Answered(qs, frame) == |qs|
    ensures Answered(qs, frame) <= |qs|
    ensures Frames(qs, frame).Ok? ==> |Frames(qs, frame).value| == |qs|
    ensures Frames(qs, frame).Ok? ==> forall i :: 0 <= i < |qs| ==> frame(qs[i]) == Ok(Frames(qs, frame).value[i])
    ensures Frames(qs, frame).Err? ==> frame(qs[Answered(qs, frame)]) == Err(Frames(qs, frame).error)
    ensures forall i :: 0 <= i < Answered(qs, frame) ==> frame(qs[i]).Ok?
  {
    if |qs| > 0 && frame(qs[0]).Ok? {
      FramesMeaning(qs[1..], frame);
      assert forall i :: 1 <= i < |qs| ==> qs[i] == qs[1..][i - 1];
      if Frames(qs, frame).Ok? {
        var ts := Frames(qs[1..], frame).value;
        assert Frames(qs, frame).value == [frame(qs[0]).value] + ts;
      }
    }
  }

  /** `pd.concat` raises on an empty list; every row's abstract is then cleaned. */
  function Gathered(frames: Result<seq<seq<Publication>>, CollectError>, parse: string -> seq<Node>)
    : Result<seq<Publication>, CollectError>
  {
    match frames
    case Err(e) => Err(e)
    case Ok(ts) => if |ts| == 0 then Err(NothingToConcatenate) else Ok(CleanAll(Concat(ts), parse))
  }

  /** `df["Abstract"].apply(remove_xml_from_abstract)`. */
  function CleanAll(rows: seq<Publication>, parse: string -> seq<Node>): (r: seq<Publication>)
    ensures |r| == |rows|
    ensures forall i :: 0 <= i < |rows| ==> r[i].abstractText == CleanAbstract(rows[i].abstractText, parse)
    ensures forall i :: 0 <= i < |rows| ==> r[i].(abstractText := rows[i].abstractText) == rows[i]
  {
    seq(|rows|, i requires 0 <= i < |rows| => rows[i].(abstractText := CleanAbstract(rows[i].abstractText, parse)))
  }

  /** Cleaning touches only the abstract column. */
  lemma CleanAllOnlyAbstracts(rows: seq<Publication>, parse: string -> seq<Node>, i: int)
    requires 0 <= i < |rows|
    ensures CleanAll(rows, parse)[i].(abstractText := rows[i].abstractText) == rows[i]
    ensures CleanAll(rows, parse)[i].abstractText == CleanAbstract(rows[i].abstractText, parse)
    ensures CleanAll(rows, parse)[i].abstractText.Some? ==> rows[i].abstractText.Some? && rows[i].abstractText.value != ""
  {
  }

  /** The sleeps a loop makes: one after every query that returned, when the delay is set. */
  function Sleeps(answered: nat, apiDelay: nat): (r: seq<nat>)
    ensures |r| == (if apiDelay == 0 then 0 else answered)
    ensures forall k :: 0 <= k < |r| ==> r[k] == apiDelay
  {
    if apiDelay == 0 then [] else seq(answered, _ => apiDelay)
  }

  lemma SleepsStep(i: nat, apiDelay: nat)
    ensures Sleeps(i, apiDelay) + (if apiDelay != 0 then [apiDelay] else []) == Sleeps(i + 1, apiDelay)
  {
  }

  /** The end of a loop that ran through every query. */
  lemma GatheredDone(done: seq<seq<Publication>>, parse: string -> seq<Node>)
    ensures Gathered(PrependFrames(done, Ok([])), parse) ==
      if |done| == 0 then Err(NothingToConcatenate) else Ok(CleanAll(Concat(done), parse))
  {
    assert done + [] == done;
  }

  /** A run that collects nothing has nothing to concatenate. */
  lemma NoQueriesFails(frame: Result<seq<Publication>, CollectError> -> Result<seq<Publication>, CollectError>, parse: string -> seq<Node>)
    ensures Gathered(Frames([], frame), parse) == Err(NothingToConcatenate)
  {
  }

  /** On success the rows are the query tables, concatenated in query order,
      each row's abstract cleaned, and with a delay set there was one sleep
      after every query, the last one included. */
  lemma GatheredMeaning<Q>(qs: seq<Q>, frame: Q -> Result<seq<Publication>, CollectError>, parse: string -> seq<Node>, apiDelay: nat)
    requires Gathered(Frames(qs, frame), parse).Ok?
    ensures |qs| > 0
    ensures Gathered(Frames(qs, frame), parse).value == CleanAll(Concat(Frames(qs, frame).value), parse)
    ensures |Frames(qs, frame).value| == |qs|
    ensures forall i :: 0 <= i < |qs| ==> frame(qs[i]) == Ok(Frames(qs, frame).value[i])
    ensures apiDelay > 0 ==> |Sleeps(Answered(qs, frame), apiDelay)| == |qs|
  {
    FramesMeaning(qs, frame);
  }

  /** One scholar's query: `get_works_by_name` then `parse_author_works_to_df`. */
  function AuthorFrame(s: Scholar, issns: Option<IssnMap>, api: string -> Response): Result<seq<Publication>, CollectError> {
    match WorksByName(s.firstName, s.lastName, s.startYear, issns, api)
    case Err(e) => Err(Query(e))
    case Ok(works) =>
      match TableOf(Some(Name(s.firstName, s.lastName)), works)
      case Err(p) => Err(Parse(p))
      case Ok(t) => Ok(t)
  }

  /** The per-scholar query as a function of the scholar. */
  function ScholarQuery(issns: Option<IssnMap>, api: string -> Response): Scholar -> Result<seq<Publication>, CollectError> {
    (s: Scholar) => AuthorFrame(s, issns, api)
  }

  /** One journal's query: `get_works_by_issn` then `parse_journal_works_to_df`. */
  function JournalFrame(issn: string, sYear: int, api: string -> Response, fuel: nat): Result<seq<Publication>, CollectError> {
    match Collected(Harvest(api, issn, sYear, fuel))
    case Err(e) => Err(Paging(e))
    case Ok(works) =>
      match TableOf(None, works)
      case Err(p) => Err(Parse(p))
      case Ok(t) => Ok(t)
  }

  /** The per-journal query as a function of the ISSN. */
  function JournalQuery(startYear: int, api: string -> Response, fuel: nat): string -> Result<seq<Publication>, CollectError> {
    (issn: string) => JournalFrame(issn, startYear, api, fuel)
  }

  /** One pass of the loop body: the query, then the parse. */
  method QueryScholar(scholar: Scholar, issns: Option<IssnMap>, api: string -> Response)
    returns (r: Result<seq<Publication>, CollectError>)
    ensures r == AuthorFrame(scholar, issns, api)
  {
    var works := GetWorksByName(scholar.firstName, scholar.lastName, scholar.startYear, issns, api);
    if works.Err? {
      return Err(Query(works.error));
    }
    var authorData := ParseAuthorWorksToDf(scholar.firstName, scholar.lastName, works.value);
    if authorData.Err? {
      return Err(Parse(authorData.error));
    }
    return Ok(authorData.value);
  }

  /** `collect_author_data`: fails when "Scholars" is missing, then queries
      every scholar in order. */
  method CollectAuthorData(scholars: Option<seq<Scholar>>, issns: Option<IssnMap>, api: string -> Response,
                           parse: string -> seq<Node>, apiDelay: nat)
    returns (r: Result<seq<Publication>, CollectError>, sleeps: seq<nat>)
    ensures scholars.None? ==> r == Err(Setting(MissingKey("Scholars"))) && sleeps == []
    ensures scholars.Some? ==>
      var frame := ScholarQuery(issns, api);
      r == Gathered(Frames(scholars.value, frame), parse) &&
      sleeps == Sleeps(Answered(scholars.value, frame), apiDelay)
  {
    sleeps := [];
    if scholars.None? {
      return Err(Setting(MissingKey("Scholars"))), sleeps;
    }
    var scholarList := scholars.value;
    ghost var frame := ScholarQuery(issns, api);
    ghost var whole := Frames(scholarList, frame);
    var authorDataList: seq<seq<Publication>> := [];
    assert scholarList[0..] == scholarList;
    assert whole.Ok? ==> [] + whole.value == whole.value;
    for i := 0 to |scholarList|
      invariant whole == PrependFrames(authorDataList, Frames(scholarList[i..], frame))
      invariant Answered(scholarList, frame) == i + Answered(scholarList[i..], frame)
      invariant sleeps == Sleeps(i, apiDelay)
    {
      var scholar := scholarList[i];
      FramesStep(scholarList, i, frame);
      var authorData := QueryScholar(scholar, issns, api);
      if authorData.Err? {
        return Err(authorData.error), sleeps;
      }
      PrependFramesStep(authorDataList, authorData.value, Frames(scholarList[i + 1..], frame));
      authorDataList := authorDataList + [authorData.value];
      SleepsStep(i, apiDelay);
      if apiDelay != 0 {
        sleeps := sleeps + [apiDelay];
      } else {
        assert sleeps + [] == sleeps;
      }
    }
    assert scholarList[|scholarList|..] == [];
    GatheredDone(authorDataList, parse);
    if |authorDataList| == 0 {
      return Err(NothingToConcatenate), sleeps;
    }
    return Ok(CleanAll(Concat(authorDataList), parse)), sleeps;
  }

  /** One step of a collection loop at query `i`. */
  lemma FramesStep<Q>(qs: seq<Q>, i: int, frame: Q -> Result<seq<Publication>, CollectError>)
    requires 0 <= i < |qs|
    ensures frame(qs[i]).Err? ==> Frames(qs[i..], frame) == Err(frame(qs[i]).error) && Answered(qs[i..], frame) == 0
    ensures frame(qs[i]).Ok? ==>
      Frames(qs[i..], frame) == PrependFrame(frame(qs[i]).value, Frames(qs[i + 1..], frame)) &&
      Answered(qs[i..], frame) == 1 + Answered(qs[i + 1..], frame)
  {
    assert qs[i..][0] == qs[i] && qs[i..][1..] == qs[i + 1..];
  }

  lemma PrependFramesStep(done: seq<seq<Publication>>, t: seq<Publication>, r: Result<seq<seq<Publication>>, CollectError>)
    ensures PrependFrames(done, PrependFrame(t, r)) == PrependFrames(done + [t], r)
  {
    if r.Ok? {
      assert done + ([t] + r.value) == (done + [t]) + r.value;
    }
  }

  /** One pass of the loop body: the query, then the parse. */
  method QueryJournal(issn: string, startYear: int, api: string -> Response, fuel: nat)
    returns (r: Result<seq<Publication>, CollectError>)
    ensures r == JournalFrame(issn, startYear, api, fuel)
  {
    var works := GetWorksByIssn(issn, startYear, api, fuel);
    if works.Err? {
      return Err(Paging(works.error));
    }
    var journalData := ParseJournalWorksToDf(works.value);
    if journalData.Err? {
      return Err(Parse(journalData.error));
    }
    return Ok(journalData.value);
  }

  /** `collect_journal_data`: the sampling frame, the ISSN list, then every
      ISSN queried in order, each harvest bounded by `fuel` requests. */
  method CollectJournalData(settings: map<string, Json>, issns: Option<IssnMap>, api: string -> Response,
                            fuel: nat, parse: string -> seq<Node>, apiDelay: nat)
    returns (r: Result<seq<Publication>, CollectError>, sleeps: seq<nat>)
    ensures GetJournalSampleFrame(settings).Err? ==> r == Err(Setting(GetJournalSampleFrame(settings).error)) && sleeps == []
    ensures GetJournalSampleFrame(settings).Ok? && issns.None? ==> r == Err(Setting(MissingKey("ISSNs"))) && sleeps == []
    ensures GetJournalSampleFrame(settings).Ok? && issns.Some? ==>
      var (journals, startYear) := GetJournalSampleFrame(settings).value;
      var issnList := GetIssnList(issns, Some(journals)).value;
      var frame := JournalQuery(startYear, api, fuel);
      r == Gathered(Frames(issnList, frame), parse) &&
      sleeps == Sleeps(Answered(issnList, frame), apiDelay)
  {
    sleeps := [];
    var sample := GetJournalSampleFrame(settings);
    if sample.Err? {
      return Err(Setting(sample.error)), sleeps;
    }
    var (journalList, startYear) := sample.value;
    var issnResult := GetIssnList(issns, Some(journalList));
    if issnResult.Err? {
      return Err(Setting(issnResult.error)), sleeps;
    }
    var issnList := issnResult.value;
    ghost var frame := JournalQuery(startYear, api, fuel);
    ghost var whole := Frames(issnList, frame);
    var journalDataList: seq<seq<Publication>> := [];
    assert issnList[0..] == issnList;
    assert whole.Ok? ==> [] + whole.value == whole.value;
    for i := 0 to |issnList|
      invariant whole == PrependFrames(journalDataList, Frames(issnList[i..], frame))
      invariant Answered(issnList, frame) == i + Answered(issnList[i..], frame)
      invariant sleeps == Sleeps(i, apiDelay)
    {
      var issn := issnList[i];
      FramesStep(issnList, i, frame);
      var journalData := QueryJournal(issn, startYear, api, fuel);
      if journalData.Err? {
        return Err(journalData.error), sleeps;
      }
      PrependFramesStep(journalDataList, journalData.value, Frames(issnList[i + 1..], frame));
      journalDataList := journalDataList + [journalData.value];
      SleepsStep(i, apiDelay);
      if apiDelay != 0 {
        sleeps := sleeps + [apiDelay];
      } else {
        assert sleeps + [] == sleeps;
      }
    }
    assert issnList[|issnList|..] == [];
    GatheredDone(journalDataList, parse);
    if |journalDataList| == 0 {
      return Err(NothingToConcatenate), sleeps;
    }
    return Ok(CleanAll(Concat(journalDataList), parse)), sleeps;
  }

  // ---------------------------------------------------------------------------
  // merge_w_scopus_data

  /** A row of the external table: only "title" and "abstract" are used. */
  datatype ScopusRow = ScopusRow(title: string, abstractText: Option<string>)

  /** No two external rows share a title. */
  predicate UniqueTitles(scopus: seq<ScopusRow>) {
    forall i, j :: 0 <= i < j < |scopus| ==> scopus[i].title != scopus[j].title
  }

  /** The external row with exactly this title, the first one if several. */
  function Lookup(scopus: seq<ScopusRow>, title: string): Option<ScopusRow> {
    if |scopus| == 0 then None
    else if scopus[0].title == title then Some(scopus[0])
    else Lookup(scopus[1..], title)
  }

  /** A lookup finds a row exactly when one carries the title, and with
      unique titles it finds that row. */
  lemma {:induction false} LookupMeaning(scopus: seq<ScopusRow>, title: string)
    ensures Lookup(scopus, title).Some? <==> exists s :: s in scopus && s.title == title
    ensures Lookup(scopus, title).Some? ==>
      Lookup(scopus, title).value in scopus && Lookup(scopus, title).value.title == title
    ensures UniqueTitles(scopus) ==> forall s :: s in scopus && s.title == title ==> Lookup(scopus, title) == Some(s)
  {
    if |scopus| > 0 {
      LookupMeaning(scopus[1..], title);
      assert forall s :: s in scopus ==> s == scopus[0] || s in scopus[1..];
      if UniqueTitles(scopus) {
        assert UniqueTitles(scopus[1..]) by {
          forall i, j | 0 <= i < j < |scopus[1..]| ensures scopus[1..][i].title != scopus[1..][j].title {
            assert scopus[1..][i] == scopus[i + 1] && scopus[1..][j] == scopus[j + 1];
          }
        }
        forall s | s in scopus[1..] ensures s.title != scopus[0].title {
          var j :| 0 <= j < |scopus[1..]| && scopus[1..][j] == s;
          assert scopus[j + 1] == s;
        }
      }
    }
  }

  /** `combine_first` on one row: a present abstract stays, a missing one
      takes the matching external row's abstract. */
  function Backfill(p: Publication, scopus: seq<ScopusRow>): Publication {
    if p.abstractText.Some? then p
    else match Lookup(scopus, p.title)
      case None => p
      case Some(s) => p.(abstractText := s.abstractText)
  }

  /** The merge touches nothing but missing abstracts, fills each from the
      external row with the same title, and leaves a row without a match
      as it was. */
  lemma BackfillMeaning(p: Publication, scopus: seq<ScopusRow>)
    requires UniqueTitles(scopus)
    ensures Backfill(p, scopus).(abstractText := p.abstractText) == p
    ensures p.abstractText.Some? ==> Backfill(p, scopus) == p
    ensures p.abstractText.None? ==> forall s :: s in scopus && s.title == p.title ==>
      Backfill(p, scopus).abstractText == s.abstractText
    ensures (forall s :: s in scopus ==> s.title != p.title) ==> Backfill(p, scopus) == p
  {
    LookupMeaning(scopus, p.title);
  }

  /** Merging twice fills no more than merging once. */
  lemma BackfillIdempotent(p: Publication, scopus: seq<ScopusRow>)
    ensures Backfill(Backfill(p, scopus), scopus) == Backfill(p, scopus)
  {
  }

  /** A data frame updated in place. */
  class Frame {
    var rows: seq<Publication>

    constructor (rows: seq<Publication>)
      ensures this.rows == rows
    {
      this.rows := rows;
    }
  }

  /** `merge_w_scopus_data`: the "Abstract" column replaced in place and the
      same frame returned. The left join aligns row for row only when the
      external titles are unique. */
  method MergeWithScopusData(df: Frame, scopusData: seq<ScopusRow>) returns (result: Frame)
    requires UniqueTitles(scopusData)
    modifies df
    ensures result == df
    ensures |df.rows| == |old(df.rows)|
    ensures forall i :: 0 <= i < |df.rows| ==> df.rows[i] == Backfill(old(df.rows)[i], scopusData)
  {
    df.rows := seq(|df.rows|, i requires 0 <= i < |df.rows| reads df => Backfill(df.rows[i], scopusData));
    return df;
  }
}
