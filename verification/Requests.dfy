/** Request validation on the server: every check that runs before any engine
    work, and why nothing it accepts is rejected later. */
module Requests {
  import opened Answering
  import opened Arithmetic
  import opened Engine
  import opened Kernels
  import opened Messages
  import opened ParameterSets
  import opened ProtocolSpec
  import opened Upload

  datatype RequestFailure =
    | BadParameters(error: ParamsError)
    | ColumnsMismatch(expected: nat, actual: nat)
    | QueryWidthMismatch(expected: nat, actual: nat)
    | WrongInstance(expectedId: nat, actualId: nat)
    | UnknownMatrix(id: nat)
    | DuplicateMatrix(id: nat)
    | DuplicateQuery(matrixId: nat, queryId: nat)
    | EmptyRequest
    | SizeOverflow

  // ----- Uploads -----

  /** What a validated decode guarantees of an uploaded view. */
  ghost predicate DecodedView(u: UploadRef) {
    u.matrix.rows > 0 && u.matrix.columns > 0 && |u.matrix.values| == u.matrix.rows * u.matrix.columns < TWO64
  }

  ghost predicate DecodedViews(uploads: seq<UploadRef>) { forall i | 0 <= i < |uploads| :: DecodedView(uploads[i]) }

  ghost predicate FitsParameters(u: UploadRef) { WellShaped(u.params) && u.matrix.columns == 2 * u.params.k }

  datatype UploadCheck = UploadValid(totalBytes: nat) | UploadInvalid(failure: RequestFailure)

  /** The failure names the first check that upload `i` fails. */
  ghost predicate BlamesUpload(uploads: seq<UploadRef>, i: nat, failure: RequestFailure)
    requires i < |uploads|
  {
    var u := uploads[i];
    if !WellShaped(u.params) then failure.BadParameters? && ValidateDimensions(u.params) == Rejected(failure.error)
    else if u.matrix.columns != 2 * u.params.k then failure == ColumnsMismatch(2 * u.params.k, u.matrix.columns)
    else failure == SizeOverflow && 4 * Upload.Words(uploads, i + 1) >= TWO64
  }

  /** Validates the set in full and totals its bytes. */
  method ValidateUploadViews(uploads: seq<UploadRef>) returns (r: UploadCheck)
    requires DecodedViews(uploads)
    ensures r.UploadValid? <==>
              && uploads != [] && (forall i | 0 <= i < |uploads| :: FitsParameters(uploads[i]))
              && 4 * Upload.Words(uploads, |uploads|) < TWO64
    ensures r.UploadValid? ==> r.totalBytes == 4 * Upload.Words(uploads, |uploads|)
    ensures r.UploadInvalid? ==>
              || (uploads == [] && r.failure == EmptyRequest)
              || exists i :: 0 <= i < |uploads| && (forall j | 0 <= j < i :: FitsParameters(uploads[j])) && BlamesUpload(uploads, i, r.failure)
  {
    if uploads == [] { return UploadInvalid(EmptyRequest); }
    var totalBytes, i := 0, 0;
    while i < |uploads|
      invariant 0 <= i <= |uploads| && totalBytes == 4 * Upload.Words(uploads, i) < TWO64
      invariant forall j | 0 <= j < i :: FitsParameters(uploads[j])
    {
      var u := uploads[i];
      WordsGrow(uploads, i + 1, |uploads|);
      assert DecodedView(u);
      match ValidateDimensions(u.params) {
        case Rejected(error) =>
          assert !FitsParameters(uploads[i]) && BlamesUpload(uploads, i, BadParameters(error));
          return UploadInvalid(BadParameters(error));
        case Valid =>
      }
      var width := 2 * u.params.k;
      if u.matrix.columns != width {
        assert !FitsParameters(uploads[i]) && BlamesUpload(uploads, i, ColumnsMismatch(width, u.matrix.columns));
        return UploadInvalid(ColumnsMismatch(width, u.matrix.columns));
      }
      var words := u.matrix.rows * u.matrix.columns;
      if words >= TWO64 || 4 * words >= TWO64 || totalBytes + 4 * words >= TWO64 {
        assert BlamesUpload(uploads, i, SizeOverflow);
        return UploadInvalid(SizeOverflow);
      }
      totalBytes := totalBytes + 4 * words;
      i := i + 1;
    }
    r := UploadValid(totalBytes);
  }

  /** Uploads that pass validation are servable, and their residency fits: the
      engine can refuse them only for lack of memory. */
  lemma ValidatedIsServable(uploads: seq<UploadRef>)
    requires DecodedViews(uploads) && forall i | 0 <= i < |uploads| :: FitsParameters(uploads[i])
    ensures ServableUpTo(uploads, |uploads|)
  {
    forall i | 0 <= i < |uploads| ensures Servable(uploads[i]) {
      assert DecodedView(uploads[i]) && FitsParameters(uploads[i]);
    }
  }

  // ----- Evaluations -----

  datatype MatrixInfo = MatrixInfo(instanceId: nat, width: nat)

  datatype StoredMatrix = StoredMatrix(info: MatrixInfo, prepared: PreparedMatrix)

  datatype Range = Range(start: nat, end: nat)

  datatype EvaluatedEntry = EvaluatedEntry(matrixId: nat, queries: Range)

  datatype EvaluateCheck = Evaluated(entries: seq<EvaluatedEntry>, queryRefs: seq<EncryptedQuery>) | EvaluateInvalid(failure: RequestFailure)

  ghost predicate QueryFits(info: MatrixInfo, queries: seq<EncryptedQuery>, j: nat)
    requires j < |queries|
  {
    && |queries[j].values| == info.width && queries[j].instanceId == info.instanceId
    && forall i | 0 <= i < j :: queries[i].queryId != queries[j].queryId
  }

  ghost predicate EntryFits(matrices: map<nat, StoredMatrix>, entries: seq<EvaluateEntry>, i: nat)
    requires i < |entries|
  {
    && entries[i].matrixId in matrices
    && (forall j | 0 <= j < i :: entries[j].matrixId != entries[i].matrixId)
    && entries[i].queries != []
    && forall j | 0 <= j < |entries[i].queries| :: QueryFits(matrices[entries[i].matrixId].info, entries[i].queries, j)
  }

  ghost predicate EntriesFitUpTo(matrices: map<nat, StoredMatrix>, entries: seq<EvaluateEntry>, n: nat) {
    n <= |entries| && forall i | 0 <= i < n :: EntryFits(matrices, entries, i)
  }

  ghost predicate EachQueryFits(info: MatrixInfo, queries: seq<EncryptedQuery>) {
    forall j | 0 <= j < |queries| :: QueryFits(info, queries, j)
  }

  /** Validity composes: two lists of queries fit together exactly when each fits
      and they share no identifier; one query fits by its width and instance. */
  lemma QueriesCompose(info: MatrixInfo, a: seq<EncryptedQuery>, b: seq<EncryptedQuery>, query: EncryptedQuery)
    ensures EachQueryFits(info, a + b) <==>
              && EachQueryFits(info, a) && EachQueryFits(info, b)
              && forall i, j | 0 <= i < |a| && 0 <= j < |b| :: a[i].queryId != b[j].queryId
    ensures EachQueryFits(info, [query]) <==> |query.values| == info.width && query.instanceId == info.instanceId
  {
    var c := a + b;
    if EachQueryFits(info, c) {
      forall j | 0 <= j < |a| ensures QueryFits(info, a, j) { assert QueryFits(info, c, j) && forall i | 0 <= i < j :: c[i] == a[i]; }
      forall j | 0 <= j < |b|
        ensures QueryFits(info, b, j) && forall i | 0 <= i < |a| :: a[i].queryId != b[j].queryId
      {
        assert QueryFits(info, c, |a| + j) && forall i | 0 <= i < j :: c[|a| + i] == b[i];
        forall i | 0 <= i < |a| ensures a[i].queryId != b[j].queryId { assert c[i] == a[i]; }
      }
    }
    if EachQueryFits(info, a) && EachQueryFits(info, b) && forall i, j | 0 <= i < |a| && 0 <= j < |b| :: a[i].queryId != b[j].queryId {
      forall j | 0 <= j < |c| ensures QueryFits(info, c, j) {
        if j < |a| { assert QueryFits(info, a, j); } else { assert QueryFits(info, b, j - |a|); }
      }
    }
    if EachQueryFits(info, [query]) { assert QueryFits(info, [query], 0); }
  }

  /** Requests compose the same way over matrix identifiers; one entry fits when
      its matrix is loaded and it has queries, which fit. */
  lemma RequestsCompose(matrices: map<nat, StoredMatrix>, a: seq<EvaluateEntry>, b: seq<EvaluateEntry>, entry: EvaluateEntry)
    ensures EntriesFitUpTo(matrices, a + b, |a + b|) <==>
              && EntriesFitUpTo(matrices, a, |a|) && EntriesFitUpTo(matrices, b, |b|)
              && forall i, j | 0 <= i < |a| && 0 <= j < |b| :: a[i].matrixId != b[j].matrixId
    ensures EntriesFitUpTo(matrices, [entry], 1) <==>
              entry.matrixId in matrices && entry.queries != [] && EachQueryFits(matrices[entry.matrixId].info, entry.queries)
  {
    hide QueryFits;
    var c := a + b;
    if EntriesFitUpTo(matrices, c, |c|) {
      forall j | 0 <= j < |a| ensures EntryFits(matrices, a, j) {
        assert EntryFits(matrices, c, j) && forall i | 0 <= i <= j :: c[i] == a[i];
      }
      forall j | 0 <= j < |b|
        ensures EntryFits(matrices, b, j) && forall i | 0 <= i < |a| :: a[i].matrixId != b[j].matrixId
      {
        assert EntryFits(matrices, c, |a| + j) && forall i | 0 <= i <= j :: c[|a| + i] == b[i];
        forall i | 0 <= i < |a| ensures a[i].matrixId != b[j].matrixId { assert c[i] == a[i]; }
      }
    }
    if EntriesFitUpTo(matrices, a, |a|) && EntriesFitUpTo(matrices, b, |b|)
       && forall i, j | 0 <= i < |a| && 0 <= j < |b| :: a[i].matrixId != b[j].matrixId {
      forall j | 0 <= j < |c| ensures EntryFits(matrices, c, j) {
        if j < |a| { assert EntryFits(matrices, a, j); } else { assert EntryFits(matrices, b, j - |a|); }
      }
    }
    if EntriesFitUpTo(matrices, [entry], 1) { assert EntryFits(matrices, [entry], 0); }
  }

  /** The queries of the first `n` entries, in order. */
  function AllQueries(entries: seq<EvaluateEntry>, n: nat): seq<EncryptedQuery>
    requires n <= |entries|
  {
    if n == 0 then [] else AllQueries(entries, n - 1) + entries[n - 1].queries
  }

  lemma {:induction false} AllQueriesPrefix(entries: seq<EvaluateEntry>, m: nat, n: nat)
    requires m <= n <= |entries|
    ensures |AllQueries(entries, m)| <= |AllQueries(entries, n)|
    ensures AllQueries(entries, m) == AllQueries(entries, n)[..|AllQueries(entries, m)|]
  {
    if m < n { AllQueriesPrefix(entries, m, n - 1); }
  }

  /** The record of entry `i`: its identifier and its own slice of the scratch. */
  function EntryRecord(entries: seq<EvaluateEntry>, i: nat): EvaluatedEntry
    requires i < |entries|
  {
    EvaluatedEntry(entries[i].matrixId, Range(|AllQueries(entries, i)|, |AllQueries(entries, i + 1)|))
  }

  /** Ranges are consecutive, start at zero, tile the scratch, and each holds
      exactly its entry's queries. */
  lemma {:induction false} RangesTileQueries(entries: seq<EvaluateEntry>, i: nat)
    requires i < |entries|
    ensures EntryRecord(entries, 0).queries.start == 0
    ensures i + 1 < |entries| ==> EntryRecord(entries, i + 1).queries.start == EntryRecord(entries, i).queries.end
    ensures EntryRecord(entries, |entries| - 1).queries.end == |AllQueries(entries, |entries|)|
    ensures var range := EntryRecord(entries, i).queries;
            && range.start <= range.end <= |AllQueries(entries, |entries|)|
            && AllQueries(entries, |entries|)[range.start..range.end] == entries[i].queries
  {
    AllQueriesPrefix(entries, i + 1, |entries|);
    var all, upTo := AllQueries(entries, |entries|), AllQueries(entries, i + 1);
    assert upTo[|AllQueries(entries, i)|..] == entries[i].queries;
    assert all[|AllQueries(entries, i)|..|upTo|] == upTo[|AllQueries(entries, i)|..];
  }

  /** The failure names the first check that query `j` fails. */
  ghost predicate BlamesQuery(info: MatrixInfo, matrixId: nat, queries: seq<EncryptedQuery>, j: nat, failure: RequestFailure)
    requires j < |queries|
  {
    var query := queries[j];
    if |query.values| != info.width then failure == QueryWidthMismatch(info.width, |query.values|)
    else if query.instanceId != info.instanceId then failure == WrongInstance(info.instanceId, query.instanceId)
    else failure == DuplicateQuery(matrixId, query.queryId) && exists i :: 0 <= i < j && queries[i].queryId == query.queryId
  }

  ghost predicate BlamesSomeQuery(info: MatrixInfo, matrixId: nat, queries: seq<EncryptedQuery>, failure: RequestFailure) {
    exists j: nat :: j < |queries| && (forall i: nat | i < j :: QueryFits(info, queries, i))
                     && BlamesQuery(info, matrixId, queries, j, failure)
  }

  /** The failure names the first check that entry `i` fails. */
  ghost predicate BlamesEntry(matrices: map<nat, StoredMatrix>, entries: seq<EvaluateEntry>, i: nat, failure: RequestFailure)
    requires i < |entries|
  {
    var entry := entries[i];
    if entry.matrixId !in matrices then failure == UnknownMatrix(entry.matrixId)
    else if exists j :: 0 <= j < i && entries[j].matrixId == entry.matrixId then failure == DuplicateMatrix(entry.matrixId)
    else if entry.queries == [] then failure == EmptyRequest
    else BlamesSomeQuery(matrices[entry.matrixId].info, entry.matrixId, entry.queries, failure)
  }

  ghost predicate BlamesSomeEntry(matrices: map<nat, StoredMatrix>, entries: seq<EvaluateEntry>, failure: RequestFailure) {
    exists i: nat :: i < |entries| && EntriesFitUpTo(matrices, entries, i) && BlamesEntry(matrices, entries, i, failure)
  }

  datatype EntryCheck = EntryValid | EntryInvalid(failure: RequestFailure)

  /** Checks one entry's queries; `seenQueries` is cleared by the caller. */
  method CheckQueries(info: MatrixInfo, matrixId: nat, queries: seq<EncryptedQuery>) returns (r: EntryCheck)
    ensures r.EntryValid? <==> forall j | 0 <= j < |queries| :: QueryFits(info, queries, j)
    ensures r.EntryInvalid? ==> BlamesSomeQuery(info, matrixId, queries, r.failure)
    ensures r.EntryInvalid? ==> r.failure.QueryWidthMismatch? || r.failure.WrongInstance? || r.failure.DuplicateQuery?
  {
    var seenQueries: set<nat> := {};
    var j := 0;
    while j < |queries|
      invariant 0 <= j <= |queries| && forall i | 0 <= i < j :: QueryFits(info, queries, i)
      invariant forall x :: x in seenQueries <==> exists i :: 0 <= i < j && queries[i].queryId == x
    {
      var query := queries[j];
      if |query.values| != info.width {
        assert !QueryFits(info, queries, j) && BlamesQuery(info, matrixId, queries, j, QueryWidthMismatch(info.width, |query.values|));
        return EntryInvalid(QueryWidthMismatch(info.width, |query.values|));
      }
      if query.instanceId != info.instanceId {
        assert !QueryFits(info, queries, j) && BlamesQuery(info, matrixId, queries, j, WrongInstance(info.instanceId, query.instanceId));
        return EntryInvalid(WrongInstance(info.instanceId, query.instanceId));
      }
      if query.queryId in seenQueries {
        assert !QueryFits(info, queries, j) && BlamesQuery(info, matrixId, queries, j, DuplicateQuery(matrixId, query.queryId));
        return EntryInvalid(DuplicateQuery(matrixId, query.queryId));
      }
      seenQueries := seenQueries + {query.queryId};
      j := j + 1;
    }
    r := EntryValid;
  }

  /** Validates a whole request against the loaded set, materializing its queries
      in entry order. */
  method PrepareEvaluate(matrices: map<nat, StoredMatrix>, entries: seq<EvaluateEntry>) returns (r: EvaluateCheck)
    ensures r.Evaluated? <==> entries != [] && EntriesFitUpTo(matrices, entries, |entries|)
    ensures r.Evaluated? ==>
              && r.queryRefs == AllQueries(entries, |entries|) && |r.entries| == |entries|
              && forall i | 0 <= i < |entries| :: r.entries[i] == EntryRecord(entries, i)
    ensures r.EvaluateInvalid? ==> (entries == [] && r.failure == EmptyRequest) || BlamesSomeEntry(matrices, entries, r.failure)
  {
    hide QueryFits, BlamesSomeQuery;
    if entries == [] { return EvaluateInvalid(EmptyRequest); }
    var seenMatrices: set<nat> := {};
    var evaluated: seq<EvaluatedEntry> := [];
    var queryRefs: seq<EncryptedQuery> := [];
    var i := 0;
    while i < |entries|
      invariant EntriesFitUpTo(matrices, entries, i)
      invariant forall x :: x in seenMatrices <==> exists j :: 0 <= j < i && entries[j].matrixId == x
      invariant queryRefs == AllQueries(entries, i)
      invariant |evaluated| == i && forall j | 0 <= j < i :: evaluated[j] == EntryRecord(entries, j)
    {
      var entry := entries[i];
      if entry.matrixId !in matrices {
        assert !EntryFits(matrices, entries, i) && BlamesEntry(matrices, entries, i, UnknownMatrix(entry.matrixId));
        return EvaluateInvalid(UnknownMatrix(entry.matrixId));
      }
      if entry.matrixId in seenMatrices {
        assert !EntryFits(matrices, entries, i) && BlamesEntry(matrices, entries, i, DuplicateMatrix(entry.matrixId));
        return EvaluateInvalid(DuplicateMatrix(entry.matrixId));
      }
      if entry.queries == [] {
        assert !EntryFits(matrices, entries, i) && BlamesEntry(matrices, entries, i, EmptyRequest);
        return EvaluateInvalid(EmptyRequest);
      }
      var checked := CheckQueries(matrices[entry.matrixId].info, entry.matrixId, entry.queries);
      if checked.EntryInvalid? {
        assert !EntryFits(matrices, entries, i) && BlamesEntry(matrices, entries, i, checked.failure);
        return EvaluateInvalid(checked.failure);
      }
      var start := |queryRefs|;
      queryRefs := queryRefs + entry.queries;
      seenMatrices := seenMatrices + {entry.matrixId};
      evaluated := evaluated + [EvaluatedEntry(entry.matrixId, Range(start, |queryRefs|))];
      i := i + 1;
    }
    r := Evaluated(evaluated, queryRefs);
  }

  // ----- Completeness of prevalidation -----

  /** What a loaded phase holds: identifiers `1 ..= n` in upload order, each the
      handle the engine returned for that upload. */
  ghost predicate LoadedSet(matrices: map<nat, StoredMatrix>, engineId: nat, firstId: nat, uploads: seq<UploadRef>) {
    && ServableUpTo(uploads, |uploads|)
    && (forall id :: id in matrices <==> 1 <= id <= |uploads|)
    && forall id | 1 <= id <= |uploads| :: matrices[id] == StoredAt(engineId, firstId, uploads, id)
  }

  function StoredAt(engineId: nat, firstId: nat, uploads: seq<UploadRef>, id: nat): StoredMatrix
    requires 1 <= id <= |uploads|
  {
    var u := uploads[id - 1];
    StoredMatrix(MatrixInfo(u.matrix.instanceId, u.matrix.columns),
                 PreparedMatrix(firstId + id - 1, engineId, u.params, u.matrix))
  }

  function JobsOf(matrices: map<nat, StoredMatrix>, entries: seq<EvaluateEntry>): (jobs: seq<AnswerJob>)
    requires forall i | 0 <= i < |entries| :: entries[i].matrixId in matrices
    ensures |jobs| == |entries|
  {
    seq(|entries|, i requires 0 <= i < |entries| => AnswerJob(matrices[entries[i].matrixId].prepared, entries[i].queries))
  }

  /** A validated request can be rejected by planning only for its size: it is
      never empty, repeated, foreign, or mismatched. */
  lemma PrevalidationIsComplete(matrices: map<nat, StoredMatrix>, engineId: nat, firstId: nat, uploads: seq<UploadRef>,
                                entries: seq<EvaluateEntry>)
    requires LoadedSet(matrices, engineId, firstId, uploads)
    requires entries != [] && EntriesFitUpTo(matrices, entries, |entries|)
    ensures forall i | 0 <= i < |entries| :: entries[i].matrixId in matrices && entries[i].queries != []
    ensures AllValid(JobsOf(matrices, entries)) && AcceptedUpTo(engineId, JobsOf(matrices, entries), |entries|)
  {
    forall i | 0 <= i < |entries| ensures entries[i].matrixId in matrices && entries[i].queries != [] {
      assert EntryFits(matrices, entries, i);
    }
    var jobs := JobsOf(matrices, entries);
    forall i | 0 <= i < |entries| ensures jobs[i].matrix.Valid() && EntryAcceptable(engineId, jobs, i) {
      JobAcceptable(matrices, engineId, firstId, uploads, entries, i);
    }
  }

  lemma JobAcceptable(matrices: map<nat, StoredMatrix>, engineId: nat, firstId: nat, uploads: seq<UploadRef>,
                      entries: seq<EvaluateEntry>, i: nat)
    requires LoadedSet(matrices, engineId, firstId, uploads) && i < |entries|
    requires EntriesFitUpTo(matrices, entries, |entries|)
    requires forall j | 0 <= j < |entries| :: entries[j].matrixId in matrices
    ensures var jobs := JobsOf(matrices, entries); jobs[i].matrix.Valid() && EntryAcceptable(engineId, jobs, i)
  {
    hide ValidateMatrixShape;
    var jobs, id := JobsOf(matrices, entries), entries[i].matrixId;
    assert EntryFits(matrices, entries, i);
    assert Servable(uploads[id - 1]);
    forall j | 0 <= j < i ensures jobs[j].matrix.id != jobs[i].matrix.id {
      assert matrices[entries[j].matrixId] == StoredAt(engineId, firstId, uploads, entries[j].matrixId);
    }
    forall q | 0 <= q < |jobs[i].queries|
      ensures ValidateQuery(jobs[i].matrix.matrix.columns, jobs[i].matrix.matrix.instanceId, jobs[i].queries[q]).Ok?
    {
      assert QueryFits(matrices[id].info, entries[i].queries, q);
    }
  }
}
