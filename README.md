# Get to know your text: a verified model of the record-handling core

AOM2024_GetToKnowYourText collects publication records from the Crossref REST
API and cleans them into two corpora for text analysis:

- an author corpus, built per scholar;
- a journal corpus, built per ISSN.

This project models that pipeline in Dafny:

- reading the settings (ISSN mapping, sampling frame, stop words, non-content
  patterns);
- building the Crossref query URLs and harvesting paged results;
- turning works into publication rows with DOI deduplication;
- stripping JATS markup from abstracts;
- back-filling missing abstracts from an external table keyed by title;
- the row filters of the preprocessing script (blacklisted titles, DOI
  deduplication of the journal corpus, missing or blank abstracts);
- token-level preprocessing (non-word parts of speech, short tokens, stop words,
  lemmas);
- splitting the journal corpus into partitions that are loaded into a vector
  store, with five attempts per partition.

External services are parameters of the model, never part of it. Each one is a
function:

| service | modelled as |
|---|---|
| HTTP API | `api: string -> Response`, keyed by URL |
| HTML parser | `parse: string -> seq<Node>` |
| regular-expression replacement | `replace` |
| spaCy tagger | `tagger` |
| gensim phrase model | `phrases` |
| vector store | `accepts: nat -> bool` (whether its n-th `add_documents` call succeeds) |

Sleeps are recorded as values, not performed. In the modelled functions, every
`assert` that guards a settings key becomes a `ConfigError` on an error path,
and every exception raised on the records themselves becomes an error
constructor of a `Result`.

Modules, one per source component:

| module | file | models |
|---|---|---|
| `Wrappers`, `Text`, `Tables`, `Settings` | `wrappers.dfy`, `text.dfy`, `tables.dfy`, `settings.dfy` | shared pieces: Option/Result, Python string operations (`lower`, `strip`, `in`, `join`, `split`), pandas-style row filters and `drop_duplicates`, decoded JSON |
| `Crossref` | `crossref.dfy` | `src/crossref.py`: ISSN lists, the author query, both row parsers |
| `CrossrefPaging` | `crossref_paging.dfy` | `get_works_by_issn` and its offset-paged loop |
| `CrossrefAbstract` | `crossref_abstract.dfy` | `remove_xml_from_abstract` |
| `Preprocessing` | `preprocessing.dfy` | `src/preprocessing.py` |
| `PreprocessAbstracts` | `preprocess_abstracts.dfy` | the row filters and derived columns in `main` of `2_preprocess_abstracts.py` |
| `Embeddings` | `embeddings.dfy` | `create_vectordb` of `src/embeddings.py` |
| `CollectData` | `collect_data.dfy` | the collection loops and the Scopus merge of `1_collect_data.py` |

Four behaviours of the code are worth knowing, and the model proves each one:

- **`remove_xml_from_abstract` is not idempotent.** A non-empty text with no
  `jats:p` element cleans to `""`, and cleaning that again gives `None`
  (`CrossrefAbstract.PlainTextCleansToEmpty`).
- **The `raise` at src/embeddings.py:174-175 cannot run.** It is guarded by
  `attempts > 5` inside `while attempts < 5`. After five refusals the partition
  is silently skipped and ingestion goes on (`Embeddings.FiveFailuresSkipped`,
  `Embeddings.SkippedPartition`). The method `Embeddings.AddWithRetry` holds
  an `assert false` in that dead branch.
- **`get_works_by_issn` stops on an offset, not on a count of items.** The loop
  compares an offset that grows by `items-per-page` each page with the reported
  total (`CrossrefPaging.PagesStopRule`). A reported total of zero never stops
  the loop (`CrossrefPaging.TotalZeroNeverStops`).
- **A small journal is fetched in one request.** Three items on a page of 1000
  reach the total at once, so no second, empty page is requested
  (`CrossrefPaging.OnePageScenario`).

## Model

| member | source | states |
|---|---|---|
| Crossref.Checked | src/crossref.py:89-94 | a response passes exactly when its HTTP status raises no error (not 400–599) and its body status is "ok"; a passing response is returned unchanged |
| Crossref.GetIssnList | src/crossref.py:39-68 | fails with a missing "ISSNs" key exactly when the mapping is absent; with no or an empty journal list it yields every ISSN of the mapping; otherwise only the ISSNs of the named journals |
| Crossref.SelectedIssnsMembership | src/crossref.py:56-63 | an ISSN is selected if and only if some journal of the mapping that is named in the list carries it |
| Crossref.SelectedIssnsInMappingOrder | src/crossref.py:58-63 | the selected ISSNs keep the mapping's order: they are a subsequence of all ISSNs |
| Crossref.SelectedIssnsIgnoreListOrder | src/crossref.py:62 | only which names the journal list contains matters, not their order or repetition |
| Crossref.UnknownJournalIgnored | src/crossref.py:56-63 | adding a name that is not a journal of the mapping to a non-empty list changes nothing |
| Crossref.IssnFilterRoundTrip | src/crossref.py:85-86 | the `,issn:` filter built from comma-free ISSNs splits back into exactly those ISSNs, in order |
| Crossref.BuildAuthorQueryUrl | src/crossref.py:82-87 | the step-by-step URL assembly yields the author query URL: the query, the date filter, one `issn:` term per ISSN, the row limit |
| Crossref.WorksByName | src/crossref.py:71-96 | fails with the missing-ISSNs error when there is no mapping; otherwise succeeds exactly when the response to the URL over all ISSNs passes the checks, and then yields its items |
| Crossref.GetWorksByName | src/crossref.py:71-96 | the query procedure computes WorksByName |
| Crossref.RowsOfKeptWorks | src/crossref.py:141-161 | rows are built exactly when every kept work (titled, a journal article, with a matching author when a name is given) has a container title; then there is one row per kept work, in order, made from its first title and container title |
| Crossref.RowsOfFirstError | src/crossref.py:157 | when row building fails, the error names the DOI of the first kept work without a container title |
| Crossref.TableOfDeduplicates | src/crossref.py:162-174 | the parsed table has distinct DOIs, is a subsequence of the rows, and keeps the first row of every DOI |
| Crossref.EmptyFirstNameMatchesAnyGivenName | src/crossref.py:147-152 | with an empty first name, an author matches exactly when the lower-cased family name contains the lower-cased last name |
| Crossref.ParseAuthorWorksToDf | src/crossref.py:135-176 | the loop with its author search computes the deduplicated table of the works kept for that name |
| Crossref.ParseJournalWorksToDf | src/crossref.py:178-209 | the loop computes the deduplicated table of the titled journal articles |
| CrossrefPaging.BuildJournalPageUrl | src/crossref.py:115-119 | the page URL is the journal base URL, with an `&offset=` suffix exactly when the offset is non-zero |
| CrossrefPaging.GetWorksByIssn | src/crossref.py:99-132 | the paging loop returns the items of all fetched pages in order, the error of the first refused page, or non-termination once the request bound is spent |
| CrossrefPaging.PagesShape | src/crossref.py:113-130 | the responses are the fetches at the recorded offsets; the first offset is the starting one; each next offset adds the previous page's items-per-page; no more requests than the bound |
| CrossrefPaging.FirstRequestWithoutOffset | src/crossref.py:115-121 | the first request carries no offset; each later request asks for the base URL with its offset |
| CrossrefPaging.OffsetsIncrease | src/crossref.py:130 | with positive page sizes, the requested offsets strictly increase and never fall below the start |
| CrossrefPaging.PagesContinue | src/crossref.py:113-129 | every request after the first follows a passing page whose reported total still lies beyond the offset, or whose total is zero |
| CrossrefPaging.PagesStopRule | src/crossref.py:113-130 | a harvest that ends normally made no request or stopped on a passing page whose offset plus page size reached a non-zero total |
| CrossrefPaging.HarvestStopsAtTotal | src/crossref.py:109-130 | from the initial state, a normally ended harvest stopped on reaching the reported total |
| CrossrefPaging.AbortedOnRefusedPage | src/crossref.py:121-128 | an aborted harvest ends on the one refused page and carries its error; every earlier page passed |
| CrossrefPaging.TotalZeroNeverStops | src/crossref.py:113-129 | when every page reports a total of zero, the loop never stops: every request bound is spent |
| CrossrefPaging.FuelMonotone | src/crossref.py:113 | a harvest that ends within a request bound is the same under any larger bound |
| CrossrefPaging.SteadyHarvestStops | src/crossref.py:109-130 | against a source with a fixed positive total and page size, enough requests end the harvest successfully |
| CrossrefPaging.OnePageScenario | src/crossref.py:109-132 | three items on a page of 1000 are collected with a single request |
| CrossrefAbstract.AssembleParagraphs | src/crossref.py:227-232 | the assembly loop joins the texts of the `jats:p` elements with single spaces, skipping the empty texts before the first non-empty one |
| CrossrefAbstract.RemoveXmlFromAbstract | src/crossref.py:211-234 | the procedure computes the cleaned abstract |
| CrossrefAbstract.CleanAbstractMeaning | src/crossref.py:220-234 | no text or an empty text gives None; otherwise the stripped join of the paragraph texts after the titles are cleared |
| CrossrefAbstract.StripIgnoresLeadingEmpty | src/crossref.py:230-234 | after the final strip, skipping the leading empty paragraphs makes no difference |
| CrossrefAbstract.PlainTextCleansToEmpty | src/crossref.py:227-234 | a non-empty text without paragraphs cleans to the empty string, and cleaning that gives None |
| CrossrefAbstract.ClearedText | src/crossref.py:224-225 | after clearing, a node's text is its text outside `jats:title` elements, and no title holds content |
| CrossrefAbstract.ClearTitlesIdempotent | src/crossref.py:224-225 | clearing the titles twice is the same as clearing once |
| CrossrefAbstract.ParagraphsWithoutTitleText | src/crossref.py:224-232 | every element found after clearing contributes only its text outside titles |
| Preprocessing.GetStopwords | src/preprocessing.py:12-24 | fails with the missing-key error exactly when the custom list is absent; otherwise the custom words, then the standard words |
| Preprocessing.StopwordMembership | src/preprocessing.py:24 | a word is a stop word if and only if it is custom or standard |
| Preprocessing.PreprocessDoc | src/preprocessing.py:39-55 | a document never yields more words than it has tokens |
| Preprocessing.PreprocessDocIsEmittedSurvivors | src/preprocessing.py:40-54 | a document's words are the emitted forms of its surviving tokens, in order |
| Preprocessing.SurvivorsMeaning | src/preprocessing.py:41-53 | a token survives if and only if it passes the part-of-speech, length and stop-word tests; survivors keep document order |
| Preprocessing.EmittedFromSurvivor | src/preprocessing.py:48-54 | every word is the lower-cased, stripped form of some surviving token |
| Preprocessing.NonWordTokensContributeNothing | src/preprocessing.py:41-42 | with non-word removal on, dropping punctuation, symbol, number, other and particle tokens first changes nothing |
| Preprocessing.WhitespaceTokenEmitsEmpty | src/preprocessing.py:43-48 | a whitespace token with a three-character lemma passes the length test and emits the empty word |
| Preprocessing.PreprocessTokens | src/preprocessing.py:39-54 | the token loop computes the document's words |
| Preprocessing.PreprocessDocs | src/preprocessing.py:27-57 | fails with the missing stop-word key when the custom list is absent; otherwise preprocesses every document with the custom plus standard stop words |
| Preprocessing.ApplyPatternsPointwise | src/preprocessing.py:78-81 | applying all patterns works text by text: missing stays missing, each present text gets every pattern in order |
| Preprocessing.ApplyPatternsAppend | src/preprocessing.py:78-79 | applying two pattern lists in turn is applying their concatenation |
| Preprocessing.IneffectivePatternDropped | src/preprocessing.py:78-79 | a pattern that changes no text can be removed from the front of the list |
| Preprocessing.RemoveNoncontentStatements | src/preprocessing.py:60-81 | fails with the missing-key error when the pattern list is absent; otherwise applies every pattern in order; with no patterns the texts come back unchanged |
| PreprocessAbstracts.MentionsAnyIff | 2_preprocess_abstracts.py:20-35 | a row mentions a word list if and only if its lower-cased title contains one of the words |
| PreprocessAbstracts.AvoidingStep | 2_preprocess_abstracts.py:30-35 | one more pass of the word loop narrows the filter by one more word |
| PreprocessAbstracts.DropMentioning | 2_preprocess_abstracts.py:20-35 | the word loop keeps exactly the rows of both tables whose titles mention none of the words, in order |
| PreprocessAbstracts.DropBlacklisted | 2_preprocess_abstracts.py:19-35 | both tables keep exactly the rows whose titles avoid the eight blacklisted words |
| PreprocessAbstracts.BlacklistMeaning | 2_preprocess_abstracts.py:20-35 | a row survives if and only if it was present and its lower-cased title contains none of the blacklisted words |
| PreprocessAbstracts.CleanAbstracts | 2_preprocess_abstracts.py:44-49 | fails with the missing-patterns error when the pattern list is absent; otherwise every row gains its cleaned abstract rendered as a string |
| PreprocessAbstracts.DropMissingAbstracts | 2_preprocess_abstracts.py:52-57 | keeps exactly the rows whose cleaned abstract is not "none" in any case and is not blank |
| PreprocessAbstracts.MissingAbstractDropped | 2_preprocess_abstracts.py:44-55 | a row without an abstract is rendered "None" and dropped |
| PreprocessAbstracts.CleanCorpora | 2_preprocess_abstracts.py:19-57 | fails when the pattern list is absent; otherwise each corpus is blacklist-filtered, deduplicated by DOI (journal corpus only), cleaned and filtered |
| PreprocessAbstracts.DeduplicatedRows | 2_preprocess_abstracts.py:37-41 | deduplication keeps the row order and only rows that passed the blacklist |
| PreprocessAbstracts.CleanCorpusOrder | 2_preprocess_abstracts.py:30-57 | the rows of a cleaned corpus are a subsequence of the input rows |
| PreprocessAbstracts.CleanCorpusRow | 2_preprocess_abstracts.py:30-57 | every surviving row came from the input, has an abstract, carries its own cleaned abstract and mentions no blacklisted word |
| PreprocessAbstracts.JournalDoisDistinct | 2_preprocess_abstracts.py:41 | the cleaned journal corpus has distinct DOIs |
| PreprocessAbstracts.AuthorRowSurvives | 2_preprocess_abstracts.py:37-57 | an author row that avoids the blacklist and has an abstract survives |
| PreprocessAbstracts.JournalRowSurvives | 2_preprocess_abstracts.py:41-57 | a journal row that avoids the blacklist, is alone with its DOI and has an abstract survives |
| PreprocessAbstracts.CoauthorRowsKept | 2_preprocess_abstracts.py:38-41 | two author rows with one DOI both stay in the author corpus |
| PreprocessAbstracts.SharedDoiOnceInJournalTable | 2_preprocess_abstracts.py:41 | two journal rows with one DOI leave only the first in the journal corpus |
| PreprocessAbstracts.JournalTableDedupAgain | 2_preprocess_abstracts.py:41 | deduplicating one ISSN's parsed journal table again changes nothing: only DOIs shared between ISSNs are removed by the second pass |
| PreprocessAbstracts.FullNameRoundTrip | 2_preprocess_abstracts.py:66-68 | a full name of space-free parts splits back into the first and last name |
| PreprocessAbstracts.BigramWsRoundTrip | 2_preprocess_abstracts.py:79 | a space-joined non-empty list of space-free words splits back into that list |
| PreprocessAbstracts.Prepare | 2_preprocess_abstracts.py:66-94 | one prepared row per cleaned row |
| PreprocessAbstracts.LemmatizedWords | src/preprocessing.py:43-48 | with lemmas on, every word is the stripped lower-cased lemma of a surviving token |
| PreprocessAbstracts.PreparedRow | 2_preprocess_abstracts.py:66-79 | each prepared row keeps its row, gets the full name when asked, its words are lemmas of surviving tokens, and its bigram column joins the phrase model's output |
| PreprocessAbstracts.PrepareCorpus | 2_preprocess_abstracts.py:69-94 | fails with the missing stop-word key when the custom list is absent; otherwise prepares every row with the custom plus standard stop words |
| PreprocessAbstracts.PreprocessCorpora | 2_preprocess_abstracts.py:13-94 | the missing-patterns error comes first, then the missing stop-word error; otherwise both corpora are cleaned and then prepared |
| Embeddings.PartitionCount | src/embeddings.py:149-151 | there is always at least one partition |
| Embeddings.ArraySplit | src/embeddings.py:153 | the split yields exactly the requested number of pieces |
| Embeddings.ArraySplitSizes | src/embeddings.py:153 | piece i holds the floor of n/k rows, plus one for the first n mod k pieces |
| Embeddings.ArraySplitConcat | src/embeddings.py:153 | the pieces, concatenated, give back the table |
| Embeddings.ArraySplitBalanced | src/embeddings.py:153 | earlier pieces are never smaller and at most one row larger than later ones |
| Embeddings.PartitionSizes | src/embeddings.py:149-153 | fewer than ten rows go in one partition; otherwise every partition holds 10 to 19 rows |
| Embeddings.Load | src/embeddings.py:163-166 | one document per row; the row comes back from its document by putting the page content back as the cleaned abstract beside the metadata, which holds every other column |
| Embeddings.LoadAllConcat | src/embeddings.py:162-166 | loading the partitions one by one yields the documents of the whole table |
| Embeddings.VectorStore.constructor | src/embeddings.py:155-160 | a new store holds no documents and has had no calls |
| Embeddings.VectorStore.AddDocuments | src/embeddings.py:170 | a call succeeds as the store's acceptance decides; it adds all the documents on success and none on failure, and counts the call |
| Embeddings.Retry | src/embeddings.py:167-179 | the call counter never goes back and counts the storing call |
| Embeddings.RetryMeaning | src/embeddings.py:167-179 | the refused calls are consecutive and fewer than the attempts left; a stored partition follows them with an accepted call; a skipped one used all five attempts |
| Embeddings.RetryLog | src/embeddings.py:172-179 | the log holds one refusal-and-20-second-sleep per failure, then the insert when stored |
| Embeddings.SuccessStops | src/embeddings.py:170-171 | an accepted call stores the partition at once, with no wait |
| Embeddings.FourRefusalsThenStored | src/embeddings.py:167-179 | four refusals then an acceptance store the partition on the fifth attempt, after four waits |
| Embeddings.FiveFailuresSkipped | src/embeddings.py:168-179 | five refusals skip the partition after five waits, without raising |
| Embeddings.OneSleepPerRefusal | src/embeddings.py:172-179 | each refusal is followed by exactly one 20-second sleep |
| Embeddings.AddWithRetry | src/embeddings.py:167-179 | the retry loop stores and logs what the retry function describes, and leaves the store otherwise unchanged |
| Embeddings.CreateVectorDb | src/embeddings.py:133-181 | a fresh store ends holding the documents, log and call count that ingesting the split, loaded partitions in order describes |
| Embeddings.IngestCalls | src/embeddings.py:162-179 | ingestion makes between one and five calls per partition |
| Embeddings.AllAcceptedStoresAll | src/embeddings.py:162-179 | when every call succeeds, all documents are stored in order, with one call per partition and no sleep |
| Embeddings.EveryRowStored | src/embeddings.py:149-179 | when every call succeeds, the store holds one document per journal row, in table order |
| Embeddings.SkippedPartition | src/embeddings.py:162-179 | a partition refused five times adds nothing and costs five calls |
| CollectData.GetJournalSampleFrame | 1_collect_data.py:73-93 | succeeds exactly when the sample is an object with a list of journals and an integer (or bool) start year, and then returns them; a missing sample is reported first |
| CollectData.PresenceBeforeType | 1_collect_data.py:85-91 | a missing start year is reported before any type check |
| CollectData.SampleFrameRoundTrip | 1_collect_data.py:87-93 | a well-formed sample gives back its own journals and start year |
| CollectData.BoolStartYearAccepted | 1_collect_data.py:91 | a boolean start year passes the integer check and counts as 1 or 0 |
| CollectData.FramesMeaning | 1_collect_data.py:55-60 | the query loop succeeds exactly when every query is answered, with one table per query in order; otherwise it stops at the first failing query with its error |
| CollectData.CleanAll | 1_collect_data.py:67-69 | one row per row, in order; each abstract is replaced by the cleaned form of the old one, and every other column is kept |
| CollectData.CleanAllOnlyAbstracts | 1_collect_data.py:67-69 | a row's cleaned abstract is the cleaned form of its own abstract, nothing else changes, and a present result comes only from a non-empty abstract |
| CollectData.Sleeps | 1_collect_data.py:62-64 | when a delay is set, one sleep of exactly that many seconds per answered query; none otherwise |
| CollectData.NoQueriesFails | 1_collect_data.py:66 | concatenating no tables fails |
| CollectData.GatheredMeaning | 1_collect_data.py:55-69 | a successful collection had queries, all answered, and its rows are the cleaned concatenation of the per-query tables; with a delay, one sleep per query |
| CollectData.QueryScholar | 1_collect_data.py:56-59 | one scholar's query yields that scholar's author table or the first error |
| CollectData.CollectAuthorData | 1_collect_data.py:46-70 | fails when the scholar list is absent; otherwise the loop yields the collected table, or the first error, and sleeps once per answered query |
| CollectData.QueryJournal | 1_collect_data.py:108-109 | one ISSN's query yields its journal table or the first error |
| CollectData.CollectJournalData | 1_collect_data.py:96-120 | sampling-frame errors come first, then the missing ISSN mapping; otherwise the loop over the selected ISSNs yields the collected table or the first error, and sleeps once per answered query |
| CollectData.LookupMeaning | 1_collect_data.py:134-139 | a title is found exactly when some external row has it; with unique titles it finds that row |
| CollectData.BackfillMeaning | 1_collect_data.py:134-142 | only the abstract changes; an existing abstract is kept; a missing one takes the abstract of the row with the same title; with no such row nothing changes |
| CollectData.BackfillIdempotent | 1_collect_data.py:142 | filling the abstracts twice is the same as once |
| CollectData.MergeWithScopusData | 1_collect_data.py:123-144 | the table is updated in place and returned; it keeps its length, and every row is back-filled from the external table |

## Left out

- `get_user_agent`, `get_settings`, reading `settings.json`, and JSON decoding: the settings are given already decoded, and the `assert json_data` on an empty file is not modelled.
- HTTP transport: requests, headers, timeouts and connection errors. Each response is the value of `api` at the URL.
- Missing keys in Crossref work records (`DOI`, `type`, `author`, `published`, and so on): records are typed. Only the empty `container-title` list, which raises `IndexError`, is modelled.
- Scholar entries are typed records. A scholar without `first_name`, `last_name` or `start_year`, which raises `KeyError` in `collect_author_data`, is not modelled.
- `CollectData.GetJournalSampleFrame`: a sample that is not a JSON object is reported as `WrongType`. Python would instead test membership in a list or string and then fail on indexing.
- The HTML parser, and `clear()` changing the parse tree in place: the tree is a value, and clearing returns a new tree.
- spaCy tagging, gensim phrase training and regular-expression replacement are oracle functions. `doc.text` is taken to equal the text that was tagged. The phrase models' `min_count` and `threshold` are not modelled.
- NLTK's stop-word list is a parameter. Saving the phrase models and the data files, `check_download_models`, `load_data_files`, and all printing and progress bars are left out.
- `Text.Lower` lowers ASCII letters only, where Python's `str.lower` covers Unicode.
- `str.contains(word, case=False)` is modelled as a substring test on the lower-cased title. The blacklisted words hold no regular-expression metacharacters; further case folding is not modelled.
- CrossrefPaging.GetWorksByIssn: a bound on the number of requests replaces the loop that can run forever (when the total is zero). Past the bound, the model returns `NotTerminated` instead of looping.
- A boolean `start_year` passes the integer check and is used as 1 or 0. Python would write `True` or `False` into the URL; that rendering is not modelled.
- A missing abstract is `None`. The NaN that a pandas merge can produce would be rendered "nan" and would pass the filters; it is not modelled.
- CollectData.MergeWithScopusData: requires unique titles in the external table. With repeated titles, the pandas left merge adds rows and its `combine_first` aligns by index; that case is not modelled.
- DataFrame indexes, including `ignore_index` and index alignment, are not modelled; tables are sequences of records.
- `write_data_file` and the early `read_pickle` return of both collectors, and `main` of the collection script: interactive prompts and files. Real waiting (`time.sleep`, `sleep(20)`) is recorded as a list of durations or as log events.
- The request delay is a `nat`. A negative `api_delay` passes the `if api_delay:` test, and `time.sleep` then raises `ValueError`; that case is not modelled.
- Embeddings.VectorStore.AddDocuments: a call stores all of its documents or none; partial insertion is not modelled. Only the Ollama `ResponseError` is retried; other exceptions are not modelled. Embedding, the Chroma persistence directory and collection name are left out.
- Embeddings.Load: the metadata holds every column of a prepared row except the cleaned abstract. The one caller (`4_embeddings.py`) drops `Abstract`, `Abstract_preprocessed`, `Abstract_w_bigrams` and `Abstract_bigram_ws` before calling `create_vectordb`, while the model's prepared rows still carry them, so the metadata here holds those columns too.
- The rest of `src/embeddings.py` (model download, similarity, t-SNE, loading the store), `src/general.py`, `3_scattertext.py` and `4_embeddings.py` are not part of this model.
