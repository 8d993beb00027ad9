/** `src/embeddings.py`, `create_vectordb`: the journal table is cut into
    partitions with `numpy.array_split`, and each partition is offered to
    the vector store with up to five attempts and a 20-second wait after
    every refused one. The store's embedding server is an oracle
    `accepts`: whether its `n`-th `add_documents` call succeeds. */
module Embeddings {
  import opened Wrappers
  import opened Tables
  import opened Crossref
  import opened PreprocessAbstracts

  // ---------------------------------------------------------------------------
  // Partitioning

  /** `len(journal_data) // 10`, raised to 1 when that is 0. */
  function PartitionCount(n: nat): (r: nat)
    ensures r >= 1
  {
    if n / 10 == 0 then 1 else n / 10
  }

  /** `a / k` rounded up. */
  function CeilDiv(a: nat, k: nat): nat
    requires k > 0
  {
    a / k + (if a % k == 0 then 0 else 1)
  }

  lemma MulMono(x: int, y: int, d: int)
    requires x <= y && d >= 0
    ensures x * d <= y * d
  {
    assert y * d - x * d == (y - x) * d;
  }

  lemma CeilDivBound(a: nat, k: nat)
    requires k > 0
    ensures CeilDiv(a, k) <= a
  {
    var q, r := a / k, a % k;
    assert a == q * k + r;
    MulMono(1, k, q);
  }

  /** Division and remainder are determined by the equation they satisfy. */
  lemma DivModUnique(a: int, d: int, q: int, r: int)
    requires d > 0 && 0 <= r < d && a == q * d + r
    ensures a / d == q && a % d == r
  {
    var q', r' := a / d, a % d;
    assert a == q' * d + r';
    assert (q' - q) * d == r - r' by {
      assert (q' - q) * d == q' * d - q * d;
    }
    if q' > q {
      MulMono(1, q' - q, d);
    } else if q' < q {
      MulMono(1, q - q', d);
    }
  }

  /** `numpy.array_split(s, k)`: `k` consecutive pieces, the first `|s| % k`
      of them one row longer than the others. */
  function ArraySplit<T>(s: seq<T>, k: nat): (r: seq<seq<T>>)
    requires k > 0
    ensures |r| == k
    decreases k
  {
    if k == 1 then [s]
    else
      CeilDivBound(|s|, k);
      var c := CeilDiv(|s|, k);
      [s[..c]] + ArraySplit(s[c..], k - 1)
  }

  /** Taking the first piece leaves the same quotient and one remainder row fewer. */
  lemma SplitStep(a: nat, k: nat)
    requires k >= 2
    ensures CeilDiv(a, k) <= a
    ensures (a - CeilDiv(a, k)) / (k - 1) == a / k
    ensures (a - CeilDiv(a, k)) % (k - 1) == (if a % k == 0 then 0 else a % k - 1)
  {
    CeilDivBound(a, k);
    var q, r := a / k, a % k;
    assert a == q * k + r;
    assert q * k == q * (k - 1) + q;
    if r == 0 {
      DivModUnique(a - CeilDiv(a, k), k - 1, q, 0);
    } else {
      DivModUnique(a - CeilDiv(a, k), k - 1, q, r - 1);
    }
  }

  /** Piece `i` has `|s| / k` rows, plus one when `i < |s| % k`. */
  lemma {:induction false} ArraySplitSizes<T>(s: seq<T>, k: nat, i: int)
    requires k > 0 && 0 <= i < k
    ensures |ArraySplit(s, k)[i]| == |s| / k + (if i < |s| % k then 1 else 0)
    decreases k
  {
    if k == 1 {
      DivModUnique(|s|, 1, |s|, 0);
    } else {
      SplitStep(|s|, k);
      var c := CeilDiv(|s|, k);
      if i > 0 {
        ArraySplitSizes(s[c..], k - 1, i - 1);
        assert ArraySplit(s, k)[i] == ArraySplit(s[c..], k - 1)[i - 1];
      }
    }
  }

  /** The pieces, concatenated in order, are the input rows. */
  lemma {:induction false} ArraySplitConcat<T>(s: seq<T>, k: nat)
    requires k > 0
    ensures Concat(ArraySplit(s, k)) == s
    decreases k
  {
    if k == 1 {
      assert [s][1..] == [];
      assert s + [] == s;
    } else {
      CeilDivBound(|s|, k);
      var c := CeilDiv(|s|, k);
      var rest := ArraySplit(s[c..], k - 1);
      ArraySplitConcat(s[c..], k - 1);
      assert ArraySplit(s, k) == [s[..c]] + rest;
      assert ([s[..c]] + rest)[1..] == rest;
      assert s[..c] + s[c..] == s;
    }
  }

  /** Piece sizes differ by at most one, and earlier pieces are never smaller. */
  lemma ArraySplitBalanced<T>(s: seq<T>, k: nat, i: int, j: int)
    requires k > 0 && 0 <= i <= j < k
    ensures 0 <= |ArraySplit(s, k)[i]| - |ArraySplit(s, k)[j]| <= 1
  {
    ArraySplitSizes(s, k, i);
    ArraySplitSizes(s, k, j);
  }

  /** With `k = a / 10` partitions of `a >= 10` rows the base size is at
      least 10, and at most 19 counting the extra row. */
  lemma PartitionQuotient(a: nat)
    requires a >= 10
    ensures 10 <= a / PartitionCount(a)
    ensures a / PartitionCount(a) + (if a % PartitionCount(a) == 0 then 0 else 1) <= 19
  {
    var k := PartitionCount(a);
    var q, r := a / k, a % k;
    assert a == q * k + r;
    assert a == 10 * k + a % 10;
    if q <= 9 {
      MulMono(q, 9, k);
      assert false;
    }
    MulMono(1, k, 9);
    assert a <= 19 * k;
    if q >= 20 {
      MulMono(20, q, k);
      assert false;
    }
    if q == 19 {
      assert q * k == 19 * k;
    }
  }

  /** With ten rows or more every partition holds between 10 and 19 rows;
      with fewer there is one partition holding them all. */
  lemma PartitionSizes<T>(s: seq<T>, i: int)
    requires 0 <= i < PartitionCount(|s|)
    ensures |s| < 10 ==> PartitionCount(|s|) == 1 && ArraySplit(s, 1)[0] == s
    ensures |s| >= 10 ==> 10 <= |ArraySplit(s, PartitionCount(|s|))[i]| <= 19
  {
    if |s| >= 10 {
      ArraySplitSizes(s, PartitionCount(|s|), i);
      PartitionQuotient(|s|);
    }
  }

  // ---------------------------------------------------------------------------
  // Documents and the vector store

  /** The metadata of a loaded document: every column of the prepared row
      except "Abstract_clean", which the loader pops into the page content. */
  datatype Metadata = Metadata(pub: Publication, fullName: Option<string>, preprocessed: seq<string>,
                               bigrams: seq<string>, bigramWs: string)

  /** A `DataFrameLoader` document: the "Abstract_clean" text and the other columns. */
  datatype Document = Document(pageContent: string, metadata: Metadata)

  /** The row a document was loaded from: its metadata with the page content
      put back as "Abstract_clean". */
  function Unload(d: Document): Prepared {
    var m := d.metadata;
    Prepared(Row(m.pub, d.pageContent), m.fullName, m.preprocessed, m.bigrams, m.bigramWs)
  }

  /** `DataFrameLoader(partition, page_content_column="Abstract_clean").load()`:
      one document per row, whose content and metadata together give the row back. */
  function Load(rows: seq<Prepared>): (r: seq<Document>)
    ensures |r| == |rows|
    ensures forall i :: 0 <= i < |rows| ==> Unload(r[i]) == rows[i]
  {
    seq(|rows|, i requires 0 <= i < |rows| =>
      var p := rows[i];
      Document(p.row.abstractClean, Metadata(p.row.pub, p.fullName, p.preprocessed, p.bigrams, p.bigramWs)))
  }

  lemma LoadAppend(a: seq<Prepared>, b: seq<Prepared>)
    ensures Load(a + b) == Load(a) + Load(b)
  {
  }

  function LoadAll(parts: seq<seq<Prepared>>): (r: seq<seq<Document>>)
    ensures |r| == |parts|
  {
    seq(|parts|, i requires 0 <= i < |parts| => Load(parts[i]))
  }

  lemma {:induction false} LoadAllConcat(parts: seq<seq<Prepared>>)
    ensures Concat(LoadAll(parts)) == Load(Concat(parts))
  {
    if |parts| > 0 {
      LoadAllConcat(parts[1..]);
      assert LoadAll(parts)[1..] == LoadAll(parts[1..]);
      LoadAppend(parts[0], Concat(parts[1..]));
    }
  }

  /** A Chroma collection behind an embedding server. `calls` counts the
      `add_documents` calls made so far. */
  class VectorStore {
    var documents: seq<Document>
    var calls: nat
    const accepts: nat -> bool

    constructor (accepts: nat -> bool)
      ensures documents == [] && calls == 0 && this.accepts == accepts
    {
      documents := [];
      calls := 0;
      this.accepts := accepts;
    }

    /** `add_documents`: either every document is stored or the server
        raises `ResponseError` and none is. */
    method AddDocuments(docs: seq<Document>) returns (ok: bool)
      modifies this
      ensures ok == accepts(old(calls))
      ensures calls == old(calls) + 1
      ensures documents == if ok then old(documents) + docs else old(documents)
    {
      ok := accepts(calls);
      if ok {
        documents := documents + docs;
      }
      calls := calls + 1;
    }
  }

  // ---------------------------------------------------------------------------
  // Bounded retry

  /** What the loop does that can be observed: a stored partition, a refused
      attempt (numbered 1 to 5 as the message prints it) and a wait. */
  datatype Event = Inserted(partition: nat) | Refused(partition: nat, attempt: nat) | Slept(seconds: nat)

  /** The outcome of one partition's retry block. */
  datatype Trial = Trial(added: bool, log: seq<Event>, calls: nat)

  /** The retry block entered with `attempts` refusals behind it and the
      store's call counter at `calls`. */
  function Retry(p: nat, accepts: nat -> bool, calls: nat, attempts: nat): (t: Trial)
    ensures t.calls >= calls + (if t.added then 1 else 0)
    decreases 5 - attempts
  {
    if attempts >= 5 then Trial(false, [], calls)
    else if accepts(calls) then Trial(true, [Inserted(p)], calls + 1)
    else
      var t := Retry(p, accepts, calls + 1, attempts + 1);
      Trial(t.added, [Refused(p, attempts + 1), Slept(20)] + t.log, t.calls)
  }

  /** The refusals numbered `first + 1` to `first + n`, each followed by a
      20-second wait. */
  function Refusals(p: nat, first: nat, n: nat): seq<Event>
    decreases n
  {
    if n == 0 then [] else [Refused(p, first + 1), Slept(20)] + Refusals(p, first + 1, n - 1)
  }

  /** The refused calls of a retry block that began at call `calls`. */
  function Failures(t: Trial, calls: nat): int {
    t.calls - calls - (if t.added then 1 else 0)
  }

  /** The first calls are refused, then either one is accepted and the block
      stops, or the block gives up after its fifth refusal. */
  lemma {:induction false} RetryMeaning(p: nat, accepts: nat -> bool, calls: nat, attempts: nat)
    requires attempts <= 5
    ensures 0 <= Failures(Retry(p, accepts, calls, attempts), calls) <= 5 - attempts
    ensures forall n :: calls <= n < calls + Failures(Retry(p, accepts, calls, attempts), calls) ==> !accepts(n)
    ensures Retry(p, accepts, calls, attempts).added ==>
      Failures(Retry(p, accepts, calls, attempts), calls) < 5 - attempts &&
      accepts(calls + Failures(Retry(p, accepts, calls, attempts), calls))
    ensures !Retry(p, accepts, calls, attempts).added ==> Failures(Retry(p, accepts, calls, attempts), calls) == 5 - attempts
    decreases 5 - attempts
  {
    if attempts < 5 && !accepts(calls) {
      var t := Retry(p, accepts, calls, attempts);
      var u := Retry(p, accepts, calls + 1, attempts + 1);
      RetryMeaning(p, accepts, calls + 1, attempts + 1);
      assert Failures(t, calls) == Failures(u, calls + 1) + 1;
    }
  }

  /** The block's log is its refusals, each with its wait, then the insertion
      if one call was accepted. */
  lemma {:induction false} RetryLog(p: nat, accepts: nat -> bool, calls: nat, attempts: nat)
    ensures var t := Retry(p, accepts, calls, attempts);
      t.log == Refusals(p, attempts, Failures(t, calls)) + (if t.added then [Inserted(p)] else [])
    decreases 5 - attempts
  {
    var t := Retry(p, accepts, calls, attempts);
    var tail: seq<Event> := if t.added then [Inserted(p)] else [];
    if attempts >= 5 || accepts(calls) {
      assert Failures(t, calls) == 0;
      assert t.log == [] + tail;
    } else {
      var u := Retry(p, accepts, calls + 1, attempts + 1);
      RetryLog(p, accepts, calls + 1, attempts + 1);
      var n := Failures(u, calls + 1);
      var head := [Refused(p, attempts + 1), Slept(20)];
      assert t.log == head + u.log;
      assert u.log == Refusals(p, attempts + 1, n) + tail;
      assert Failures(t, calls) == n + 1;
      assert Refusals(p, attempts, n + 1) == head + Refusals(p, attempts + 1, n);
      assert head + (Refusals(p, attempts + 1, n) + tail) == (head + Refusals(p, attempts + 1, n)) + tail;
    }
  }

  /** A partition whose first call is accepted is stored after that one call. */
  lemma SuccessStops(p: nat, accepts: nat -> bool, calls: nat, attempts: nat)
    requires attempts < 5 && accepts(calls)
    ensures Retry(p, accepts, calls, attempts) == Trial(true, [Inserted(p)], calls + 1)
  {
  }

  /** Five refusals in a row: the partition is skipped, after five waits,
      and no error is raised. */
  lemma FiveFailuresSkipped(p: nat, accepts: nat -> bool, calls: nat)
    requires forall n :: calls <= n < calls + 5 ==> !accepts(n)
    ensures Retry(p, accepts, calls, 0) == Trial(false, Refusals(p, 0, 5), calls + 5)
  {
    RetryMeaning(p, accepts, calls, 0);
    RetryLog(p, accepts, calls, 0);
    assert Refusals(p, 0, 5) + [] == Refusals(p, 0, 5);
  }

  /** Four refusals and then an accepted call: the partition is stored on the
      fifth attempt, after four waits. */
  lemma FourRefusalsThenStored(p: nat, accepts: nat -> bool, calls: nat)
    requires forall n :: calls <= n < calls + 4 ==> !accepts(n)
    requires accepts(calls + 4)
    ensures Retry(p, accepts, calls, 0) == Trial(true, Refusals(p, 0, 4) + [Inserted(p)], calls + 5)
  {
    var t := Retry(p, accepts, calls, 0);
    RetryMeaning(p, accepts, calls, 0);
    RetryLog(p, accepts, calls, 0);
  }

  function CountSleeps(log: seq<Event>): nat {
    if |log| == 0 then 0 else (if log[0].Slept? then 1 else 0) + CountSleeps(log[1..])
  }

  /** One 20-second wait follows each refused attempt, and only those. */
  lemma {:induction false} OneSleepPerRefusal(p: nat, first: nat, n: nat)
    ensures CountSleeps(Refusals(p, first, n)) == n
    ensures forall k :: 0 <= k < |Refusals(p, first, n)| ==>
      (Refusals(p, first, n)[k].Refused? <==> k % 2 == 0) &&
      (k % 2 == 1 ==> Refusals(p, first, n)[k] == Slept(20))
    decreases n
  {
    if n > 0 {
      OneSleepPerRefusal(p, first + 1, n - 1);
      var rest := Refusals(p, first + 1, n - 1);
      var r := [Refused(p, first + 1), Slept(20)] + rest;
      assert r[1..] == [Slept(20)] + rest && ([Slept(20)] + rest)[1..] == rest;
      forall k | 2 <= k < |r| ensures r[k] == rest[k - 2] && (k % 2 == 0 <==> (k - 2) % 2 == 0) {
      }
    }
  }

  // ---------------------------------------------------------------------------
  // create_vectordb

  /** The store's state after a sequence of partitions. */
  datatype Ingested = Ingested(docs: seq<Document>, log: seq<Event>, calls: nat)

  /** The partitions offered in order, each through its retry block. */
  function Ingest(parts: seq<seq<Document>>, accepts: nat -> bool): Ingested
    decreases |parts|
  {
    if |parts| == 0 then Ingested([], [], 0)
    else
      var prev := Ingest(parts[..|parts| - 1], accepts);
      var t := Retry(|parts| - 1, accepts, prev.calls, 0);
      Ingested(prev.docs + (if t.added then parts[|parts| - 1] else []), prev.log + t.log, t.calls)
  }

  /** The invariant of the retry loop: the block's whole trial is the
      `events` so far followed by the rest of the block from `attempts`
      refusals and the call counter at `calls`. */
  ghost predicate RetryPending(whole: Trial, events: seq<Event>, p: nat, accepts: nat -> bool, calls: nat, attempts: nat) {
    var rest := Retry(p, accepts, calls, attempts);
    whole == Trial(rest.added, events + rest.log, rest.calls)
  }

  /** A refused call logs the refusal and its wait and counts one attempt more. */
  lemma RetryRefusedStep(whole: Trial, events: seq<Event>, p: nat, accepts: nat -> bool, calls: nat, attempts: nat)
    requires RetryPending(whole, events, p, accepts, calls, attempts)
    requires attempts < 5 && !accepts(calls)
    ensures RetryPending(whole, events + [Refused(p, attempts + 1), Slept(20)], p, accepts, calls + 1, attempts + 1)
  {
    var u := Retry(p, accepts, calls + 1, attempts + 1);
    var head := [Refused(p, attempts + 1), Slept(20)];
    assert events + (head + u.log) == (events + head) + u.log;
  }

  /** An accepted call logs the insertion and ends the block. */
  lemma RetryAcceptedStep(whole: Trial, events: seq<Event>, p: nat, accepts: nat -> bool, calls: nat, attempts: nat)
    requires RetryPending(whole, events, p, accepts, calls, attempts)
    requires attempts < 5 && accepts(calls)
    ensures whole == Trial(true, events + [Inserted(p)], calls + 1)
  {
  }

  /** After the fifth refusal the block ends with nothing stored. */
  lemma RetryGaveUp(whole: Trial, events: seq<Event>, p: nat, accepts: nat -> bool, calls: nat)
    requires RetryPending(whole, events, p, accepts, calls, 5)
    ensures whole == Trial(false, events, calls)
  {
    assert events + [] == events;
  }

  /** One partition's retry block: `attempts` counts refusals; the `raise`
      after the sixth is never reached. */
  method AddWithRetry(db: VectorStore, docs: seq<Document>, p: nat) returns (events: seq<Event>)
    modifies db
    ensures var t := Retry(p, db.accepts, old(db.calls), 0);
      events == t.log && db.calls == t.calls &&
      db.documents == old(db.documents) + (if t.added then docs else [])
  {
    ghost var whole := Retry(p, db.accepts, db.calls, 0);
    events := [];
    var attempts := 0;
    assert [] + whole.log == whole.log;
    while attempts < 5
      invariant 0 <= attempts <= 5
      invariant db.documents == old(db.documents)
      invariant RetryPending(whole, events, p, db.accepts, db.calls, attempts)
      decreases 5 - attempts
    {
      ghost var before := db.calls;
      var ok := db.AddDocuments(docs);
      if ok {
        RetryAcceptedStep(whole, events, p, db.accepts, before, attempts);
        events := events + [Inserted(p)];
        return;
      }
      RetryRefusedStep(whole, events, p, db.accepts, before, attempts);
      attempts := attempts + 1;
      if attempts > 5 {
        assert false;
      }
      events := events + [Refused(p, attempts), Slept(20)];
    }
    RetryGaveUp(whole, events, p, db.accepts, db.calls);
    assert old(db.documents) + [] == old(db.documents);
  }

  /** `create_vectordb`: partition the table, then offer each partition in order. */
  method CreateVectorDb(journalData: seq<Prepared>, accepts: nat -> bool) returns (db: VectorStore, log: seq<Event>)
    ensures fresh(db) && db.accepts == accepts
    ensures Ingest(LoadAll(ArraySplit(journalData, PartitionCount(|journalData|))), accepts) ==
      Ingested(db.documents, log, db.calls)
  {
    var nPartitions := |journalData| / 10;
    if nPartitions == 0 {
      nPartitions := 1;
    }
    var partitions := ArraySplit(journalData, nPartitions);
    ghost var loaded := LoadAll(partitions);
    db := new VectorStore(accepts);
    log := [];
    assert loaded[..0] == [];
    for i := 0 to |partitions|
      invariant db.accepts == accepts
      invariant Ingest(loaded[..i], accepts) == Ingested(db.documents, log, db.calls)
    {
      var docs := Load(partitions[i]);
      assert loaded[..i + 1][..i] == loaded[..i] && loaded[..i + 1][i] == docs;
      var events := AddWithRetry(db, docs, i);
      log := log + events;
    }
    assert loaded[..|partitions|] == loaded;
  }

  // ---------------------------------------------------------------------------
  // What the ingestion guarantees

  /** Each partition costs between one and five calls. */
  lemma {:induction false} IngestCalls(parts: seq<seq<Document>>, accepts: nat -> bool)
    ensures |parts| <= Ingest(parts, accepts).calls <= 5 * |parts|
    decreases |parts|
  {
    if |parts| > 0 {
      var prev := Ingest(parts[..|parts| - 1], accepts);
      IngestCalls(parts[..|parts| - 1], accepts);
      RetryMeaning(|parts| - 1, accepts, prev.calls, 0);
    }
  }

  /** A server that accepts every call stores every row, in order, with one
      call per partition and no wait. */
  lemma {:induction false} AllAcceptedStoresAll(parts: seq<seq<Document>>, accepts: nat -> bool)
    requires forall n :: accepts(n)
    ensures Ingest(parts, accepts).docs == Concat(parts)
    ensures Ingest(parts, accepts).calls == |parts|
    ensures CountSleeps(Ingest(parts, accepts).log) == 0
    decreases |parts|
  {
    if |parts| > 0 {
      var init := parts[..|parts| - 1];
      var last := parts[|parts| - 1];
      AllAcceptedStoresAll(init, accepts);
      var prev := Ingest(init, accepts);
      assert Retry(|parts| - 1, accepts, prev.calls, 0) == Trial(true, [Inserted(|parts| - 1)], prev.calls + 1);
      assert init + [last] == parts;
      ConcatAppend(init, last);
      CountSleepsAppend(prev.log, [Inserted(|parts| - 1)]);
    }
  }

  lemma {:induction false} CountSleepsAppend(a: seq<Event>, b: seq<Event>)
    ensures CountSleeps(a + b) == CountSleeps(a) + CountSleeps(b)
  {
    if |a| == 0 {
      assert a + b == b;
    } else {
      assert (a + b)[1..] == a[1..] + b;
      CountSleepsAppend(a[1..], b);
    }
  }

  /** Against a server that accepts every call, the collection ends up
      holding one document per row of the journal table, in table order. */
  lemma EveryRowStored(journalData: seq<Prepared>, accepts: nat -> bool)
    requires forall n :: accepts(n)
    ensures Ingest(LoadAll(ArraySplit(journalData, PartitionCount(|journalData|))), accepts).docs == Load(journalData)
  {
    var parts := ArraySplit(journalData, PartitionCount(|journalData|));
    AllAcceptedStoresAll(LoadAll(parts), accepts);
    LoadAllConcat(parts);
    ArraySplitConcat(journalData, PartitionCount(|journalData|));
  }

  /** A partition refused five times contributes nothing, and the next
      partition is offered after it. */
  lemma SkippedPartition(init: seq<seq<Document>>, last: seq<Document>, accepts: nat -> bool)
    requires forall n :: Ingest(init, accepts).calls <= n < Ingest(init, accepts).calls + 5 ==> !accepts(n)
    ensures Ingest(init + [last], accepts).docs == Ingest(init, accepts).docs
    ensures Ingest(init + [last], accepts).calls == Ingest(init, accepts).calls + 5
  {
    var parts := init + [last];
    assert parts[..|parts| - 1] == init;
    var prev := Ingest(init, accepts);
    FiveFailuresSkipped(|init|, accepts, prev.calls);
    assert prev.docs + [] == prev.docs;
  }
}
