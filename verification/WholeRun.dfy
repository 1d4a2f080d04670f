/** A whole run over one connection: derive, upload, acknowledge, request, answer,
    verify. */
module WholeRun {
  import opened Acknowledgment
  import opened Answering
  import opened Arithmetic
  import opened Bytes
  import opened Client
  import opened Codec
  import opened CodecLaws
  import opened Conversation
  import opened Decoding
  import opened Delivery
  import opened Engine
  import opened Frame
  import opened Grids
  import opened Handling
  import opened Kernels
  import opened Layout
  import opened Messages
  import opened ParameterSets
  import opened Prf
  import opened ProtocolSpec
  import opened QueryGeneration
  import opened Requests
  import opened Session
  import opened Sums
  import opened Upload
  import opened Writer

  // ----- What a run starts from -----

  /** The sampled material of one matrix: its secrets, its plaintext, its queries. */
  datatype Derivation = Derivation(sec: Secrets, plaintext: seq<int>, queries: seq<seq<int>>)

  ghost predicate Derivable(d: Derivation, params: EmvpParams, queries: nat, p: nat) {
    && d.sec.Valid(p) && d.sec.k == params.k && d.sec.ell == params.ell && d.sec.b == params.b
    && d.sec.rows < TWO64 && d.sec.instanceId < Pow(256, 16)
    && |d.plaintext| == d.sec.rows * params.ell < TWO64
    && |d.queries| == queries && forall j | 0 <= j < queries :: |d.queries[j]| == params.ell
  }

  /** A non-empty list of matrices under common parameters, and a positive number
      of queries for each. */
  ghost predicate Configured(ds: seq<Derivation>, params: EmvpParams, queries: nat, p: nat) {
    && ds != [] && params.lambda < TWO32
    && queries > 0 && IndexAllowed(queries - 1)
    && forall i | 0 <= i < |ds| :: Derivable(ds[i], params, queries, p)
  }

  ghost function InstanceOf(d: Derivation, params: EmvpParams, queries: nat, p: nat): (instance: Instance)
    requires Derivable(d, params, queries, p) && queries > 0 && IndexAllowed(queries - 1)
    ensures |instance.queries| == |instance.keys| == |instance.plaintextQueries| == queries
  {
    Instance(d.sec.rows, d.plaintext, d.queries,
             seq(queries, j requires 0 <= j < queries => QueryOf(d.sec, d.queries[j], p, j)),
             seq(queries, j requires 0 <= j < queries => KeyOf(d.sec, d.queries[j], p, j)),
             Encrypted(d.sec, d.plaintext, p))
  }

  ghost function InstancesOf(ds: seq<Derivation>, params: EmvpParams, queries: nat, p: nat): (instances: seq<Instance>)
    requires Configured(ds, params, queries, p)
    ensures |instances| == |ds|
  {
    seq(|ds|, i requires 0 <= i < |ds| => InstanceOf(ds[i], params, queries, p))
  }

  // ----- Deriving -----

  /** Fresh scratch for each worker. */
  method Workers(sec: Secrets, count: nat) returns (workers: seq<QueryScratch>)
    ensures |workers| == count
    ensures forall w | 0 <= w < count :: workers[w].Separate() && workers[w].Fits(sec) && fresh(workers[w].Buffers())
  {
    workers := [];
    while |workers| < count
      invariant |workers| <= count
      invariant forall w | 0 <= w < |workers| :: workers[w].Separate() && workers[w].Fits(sec) && fresh(workers[w].Buffers())
    {
      var worker := new QueryScratch(sec);
      workers := workers + [worker];
    }
  }

  /** Derives one instance: a fresh state encrypts the matrix and answers one
      query batch, whatever order its rows are taken in and however its queries
      are shared between the workers. */
  method DeriveInstance(d: Derivation, ghost params: EmvpParams, queries: nat, rowOrder: seq<int>, workers: nat,
                        schedule: seq<Assignment>, p: nat) returns (instance: Instance)
    requires Derivable(d, params, queries, p) && queries > 0 && IndexAllowed(queries - 1)
    requires Permutes(rowOrder, d.sec.rows) && CoversOnce(schedule, workers, queries)
    ensures instance == InstanceOf(d, params, queries, p)
  {
    hide Encrypted, QueryOf, KeyOf, Permutes, CoversOnce, Canonical;
    var state := new DerivedState(d.sec, p, 0);
    var status, cipher := state.Encrypt(d.plaintext, rowOrder);
    var scratch := Workers(d.sec, workers);
    var batch := state.QueryBatch(d.queries, scratch, schedule);
    BatchEqualsLoop(d.sec, p, 0, d.queries);
    var encrypted, keys := Unzip(d, batch.results, p);
    instance := Instance(d.sec.rows, d.plaintext, d.queries, encrypted, keys, cipher);
    assert instance.queries == InstanceOf(d, params, queries, p).queries;
    assert instance.keys == InstanceOf(d, params, queries, p).keys;
  }

  method Unzip(ghost d: Derivation, results: seq<QueryResult>, ghost p: nat) returns (queries: seq<EncryptedQuery>, keys: seq<DecodingKey>)
    requires d.sec.Valid(p) && |results| == |d.queries| && (forall i: nat | i < |results| :: IndexAllowed(i))
    requires forall i | 0 <= i < |results| :: results[i] == Issued(QueryOf(d.sec, d.queries[i], p, i), KeyOf(d.sec, d.queries[i], p, i))
    ensures |queries| == |keys| == |results|
    ensures forall i | 0 <= i < |results| :: queries[i] == QueryOf(d.sec, d.queries[i], p, i) && keys[i] == KeyOf(d.sec, d.queries[i], p, i)
  {
    hide QueryOf, KeyOf;
    queries, keys := [], [];
    var j := 0;
    while j < |results|
      invariant 0 <= j <= |results| && |queries| == |keys| == j
      invariant forall i | 0 <= i < j :: queries[i] == QueryOf(d.sec, d.queries[i], p, i) && keys[i] == KeyOf(d.sec, d.queries[i], p, i)
    {
      queries := queries + [results[j].query];
      keys := keys + [results[j].key];
      j := j + 1;
    }
  }

  method DeriveInstances(ds: seq<Derivation>, ghost params: EmvpParams, queries: nat, rowOrders: nat -> seq<int>, workers: nat,
                         schedule: seq<Assignment>, p: nat) returns (instances: seq<Instance>)
    requires Configured(ds, params, queries, p)
    requires (forall rows :: Permutes(rowOrders(rows), rows)) && CoversOnce(schedule, workers, queries)
    ensures instances == InstancesOf(ds, params, queries, p)
  {
    hide InstanceOf, Derivable, Permutes, CoversOnce;
    instances := [];
    var i := 0;
    while i < |ds|
      invariant 0 <= i <= |ds| && |instances| == i
      invariant forall k | 0 <= k < i :: instances[k] == InstanceOf(ds[k], params, queries, p)
    {
      var instance := DeriveInstance(ds[i], params, queries, rowOrders(ds[i].sec.rows), workers, schedule, p);
      instances := instances + [instance];
      i := i + 1;
    }
  }

  // ----- What the instances look like on the wire -----

  lemma ConfiguredShape(ds: seq<Derivation>, params: EmvpParams, queries: nat, p: nat)
    requires Configured(ds, params, queries, p)
    ensures WellShaped(params) && 2 < p < TWO32 && queries < TWO64
  {
    assert Derivable(ds[0], params, queries, p);
  }

  lemma CipherCanonical(sec: Secrets, matrix: seq<int>, p: nat)
    requires sec.Valid(p)
    ensures Canonical(Encrypted(sec, matrix, p).values, p) && |Encrypted(sec, matrix, p).values| == sec.rows * sec.N()
  {
    GridCanonical((r, c) => CipherCell(sec, matrix, p, r, c), sec.rows, sec.N(), p);
  }

  function UploadFor(instance: Instance, params: EmvpParams): UploadRef { UploadRef(params, instance.encrypted) }

  /** The borrowed views an upload is written from. */
  function UploadsFor(instances: seq<Instance>, params: EmvpParams): (uploads: seq<UploadRef>)
    ensures |uploads| == |instances|
  {
    seq(|instances|, i requires 0 <= i < |instances| => UploadFor(instances[i], params))
  }

  lemma UploadReady(d: Derivation, params: EmvpParams, queries: nat, p: nat)
    requires Derivable(d, params, queries, p) && queries > 0 && IndexAllowed(queries - 1)
    requires WellShaped(params) && params.lambda < TWO32
    ensures UploadSendable(UploadFor(InstanceOf(d, params, queries, p), params), p)
    ensures |InstanceOf(d, params, queries, p).encrypted.values| == d.sec.rows * (2 * params.k)
  {
    hide Encrypted, Canonical;
    CipherCanonical(d.sec, d.plaintext, p);
    EncryptedShape(d.sec, d.plaintext, p);
  }

  lemma EncryptedShape(sec: Secrets, matrix: seq<int>, p: nat)
    requires sec.Valid(p)
    ensures var e := Encrypted(sec, matrix, p); e.instanceId == sec.instanceId && e.rows == sec.rows && e.columns == sec.N()
  {
  }

  lemma QueryShape(sec: Secrets, q: seq<int>, p: nat, id: nat)
    requires sec.Valid(p) && IndexAllowed(id)
    ensures var query := QueryOf(sec, q, p, id);
            |query.values| == sec.N() && Canonical(query.values, p) && query.instanceId == sec.instanceId && query.queryId == id
  {
    hide Shifted;
  }

  lemma RequestReady(d: Derivation, params: EmvpParams, queries: nat, p: nat, id: nat)
    requires Derivable(d, params, queries, p) && queries > 0 && IndexAllowed(queries - 1) && id < TWO64
    requires WellShaped(params)
    ensures var e := EvaluateEntry(id, InstanceOf(d, params, queries, p).queries);
            EntrySendable(e, p) && QueryWidth(e) == 2 * params.k
  {
    hide QueryOf, Canonical;
    var e := EvaluateEntry(id, InstanceOf(d, params, queries, p).queries);
    forall j | 0 <= j < queries ensures QuerySendable(e.queries[j], 2 * params.k, p) {
      QueryShape(d.sec, d.queries[j], p, j);
    }
    assert QuerySendable(e.queries[0], 2 * params.k, p);
  }

  // ----- Sizes -----

  /** Field words of the ciphertexts of the first `n` matrices. */
  function CipherWords(ds: seq<Derivation>, params: EmvpParams, n: nat): nat
    requires n <= |ds|
  {
    if n == 0 then 0 else CipherWords(ds, params, n - 1) + ds[n - 1].sec.rows * (2 * params.k)
  }

  /** Field words of their answers to `queries` queries each. */
  function ReplyWords(ds: seq<Derivation>, params: EmvpParams, queries: nat, n: nat): nat
    requires n <= |ds| && params.b > 0
  {
    if n == 0 then 0 else ReplyWords(ds, params, queries, n - 1) + queries * ds[n - 1].sec.rows * (2 * params.k / params.b)
  }

  function UploadLength(ds: seq<Derivation>, params: EmvpParams): nat { 8 + 60 * |ds| + 4 * CipherWords(ds, params, |ds|) }

  function RequestLength(ds: seq<Derivation>, params: EmvpParams, queries: nat): nat {
    16 + 24 * |ds| + 24 * (|ds| * queries) + 4 * (|ds| * (queries * (2 * params.k)))
  }

  function ReplyLength(ds: seq<Derivation>, params: EmvpParams, queries: nat): nat
    requires params.b > 0
  {
    16 + 48 * |ds| + 8 * (|ds| * queries) + 4 * ReplyWords(ds, params, queries, |ds|)
  }

  /** Every frame of the run fits the wire's length field. */
  ghost predicate SizesFit(ds: seq<Derivation>, params: EmvpParams, queries: nat)
    requires params.b > 0
  {
    && UploadLength(ds, params) + HEADER_BYTES < TWO64
    && RequestLength(ds, params, queries) + HEADER_BYTES < TWO64
    && ReplyLength(ds, params, queries) + HEADER_BYTES < TWO64
  }

  lemma UploadsReady(ds: seq<Derivation>, params: EmvpParams, queries: nat, p: nat)
    requires Configured(ds, params, queries, p)
    ensures var uploads := UploadsFor(InstancesOf(ds, params, queries, p), params);
            && UploadsSendable(uploads, p) && (forall i | 0 <= i < |uploads| :: NaturalUpload(uploads[i]))
            && PayloadBytes(UploadKind, UploadParts(uploads)) == UploadLength(ds, params)
  {
    hide Derivable, InstanceOf, UploadSendable, WellShaped;
    ConfiguredShape(ds, params, queries, p);
    var uploads := UploadsFor(InstancesOf(ds, params, queries, p), params);
    forall i | 0 <= i < |uploads| ensures UploadSendable(uploads[i], p) { UploadReady(ds[i], params, queries, p); }
    SendableIsNatural(uploads, p);
    PayloadCounts(UploadKind, UploadParts(uploads));
    ValuesAreWords(uploads, |uploads|);
    CipherWordsCount(ds, params, queries, p, |ds|);
  }

  lemma {:induction false} CipherWordsCount(ds: seq<Derivation>, params: EmvpParams, queries: nat, p: nat, n: nat)
    requires Configured(ds, params, queries, p) && n <= |ds|
    ensures Upload.Words(UploadsFor(InstancesOf(ds, params, queries, p), params), n) == CipherWords(ds, params, n)
  {
    hide Derivable, InstanceOf, WellShaped;
    if n > 0 {
      ConfiguredShape(ds, params, queries, p);
      CipherWordsCount(ds, params, queries, p, n - 1);
      UploadReady(ds[n - 1], params, queries, p);
    }
  }

  /** The request the client builds for acknowledged identifiers. */
  function RequestFor(instances: seq<Instance>, ids: seq<nat>): (entries: seq<EvaluateEntry>)
    requires |instances| == |ids|
    ensures |entries| == |instances|
  {
    seq(|instances|, i requires 0 <= i < |instances| => EntryFor(instances, ids, i))
  }

  lemma RequestsReady(ds: seq<Derivation>, params: EmvpParams, queries: nat, p: nat)
    requires Configured(ds, params, queries, p) && |ds| < TWO64
    ensures var entries := RequestFor(InstancesOf(ds, params, queries, p), OneTo(|ds|));
            && EntriesSendable(entries, p)
            && (forall i | 0 <= i < |entries| :: NaturalEntry(entries[i]) && SameWidths(entries[i]))
            && PayloadBytes(EvaluateKind, EvaluateParts(entries)) == RequestLength(ds, params, queries)
  {
    hide Derivable, InstanceOf, EntrySendable, WellShaped, NaturalEntry, SameWidths, EvaluatePart;
    ConfiguredShape(ds, params, queries, p);
    var entries := RequestFor(InstancesOf(ds, params, queries, p), OneTo(|ds|));
    forall i | 0 <= i < |entries|
      ensures EntrySendable(entries[i], p) && NaturalEntry(entries[i]) && SameWidths(entries[i])
      ensures |EvaluatePart(entries[i]).items| == queries && |EvaluatePart(entries[i]).values| == queries * (2 * params.k)
    {
      RequestReady(ds[i], params, queries, p, i + 1);
      SendableEntry(entries[i], p);
      RequestPart(entries[i], p);
    }
    var parts := EvaluateParts(entries);
    EqualCounts(parts, queries, queries * (2 * params.k), |parts|);
    PayloadCounts(EvaluateKind, parts);
    hide PayloadBytes, ItemCountOf, ValueCountOf;
  }

  lemma RequestPart(e: EvaluateEntry, p: nat)
    requires EntrySendable(e, p) && NaturalEntry(e)
    ensures |EvaluatePart(e).items| == |e.queries| && |EvaluatePart(e).values| == |e.queries| * QueryWidth(e)
  {
    SendableEntry(e, p);
    ConcatLength(QueryChunks(e), QueryWidth(e));
  }

  lemma {:induction false} EqualCounts(parts: seq<Part>, items: nat, values: nat, n: nat)
    requires n <= |parts| && forall i | 0 <= i < n :: |parts[i].items| == items && |parts[i].values| == values
    ensures ItemCountOf(parts, n) == n * items && ValueCountOf(parts, n) == n * values
  {
    if n > 0 {
      EqualCounts(parts, items, values, n - 1);
      assert (n - 1) * items + items == n * items && (n - 1) * values + values == n * values;
    }
  }

  // ----- What the server makes of it -----

  /** The handle loaded for matrix `i`. */
  ghost function HandleFor(ds: seq<Derivation>, params: EmvpParams, queries: nat, p: nat, engineId: nat, firstId: nat, i: nat): PreparedMatrix
    requires Configured(ds, params, queries, p) && i < |ds|
  {
    PreparedMatrix(firstId + i, engineId, params, InstanceOf(ds[i], params, queries, p).encrypted)
  }

  /** The request is valid for the loaded set, and binds each entry to its own
      matrix. */
  lemma RequestAccepted(ds: seq<Derivation>, params: EmvpParams, queries: nat, p: nat,
                        matrices: map<nat, StoredMatrix>, engineId: nat, firstId: nat)
    requires Configured(ds, params, queries, p)
    requires LoadedSet(matrices, engineId, firstId, UploadsFor(InstancesOf(ds, params, queries, p), params))
    ensures var entries := RequestFor(InstancesOf(ds, params, queries, p), OneTo(|ds|));
            && ValidRequest(matrices, entries)
            && forall i | 0 <= i < |ds| ::
                 JobsOf(matrices, entries)[i] == AnswerJob(HandleFor(ds, params, queries, p, engineId, firstId, i), entries[i].queries)
  {
    hide InstanceOf, Derivable, ServableUpTo, EntryFits, StoredAt, ValidateMatrixShape;
    var uploads := UploadsFor(InstancesOf(ds, params, queries, p), params);
    var entries := RequestFor(InstancesOf(ds, params, queries, p), OneTo(|ds|));
    forall i | 0 <= i < |entries| ensures EntryFits(matrices, entries, i) {
      EntryAccepted(ds, params, queries, p, matrices, engineId, firstId, i);
    }
    PrevalidationIsComplete(matrices, engineId, firstId, uploads, entries);
    forall i | 0 <= i < |ds|
      ensures JobsOf(matrices, entries)[i] == AnswerJob(HandleFor(ds, params, queries, p, engineId, firstId, i), entries[i].queries)
    {
      StoredHandle(uploads, engineId, firstId, i + 1);
      assert matrices[i + 1] == StoredAt(engineId, firstId, uploads, i + 1);
    }
  }

  lemma StoredHandle(uploads: seq<UploadRef>, engineId: nat, firstId: nat, id: nat)
    requires 1 <= id <= |uploads|
    ensures var stored, u := StoredAt(engineId, firstId, uploads, id), uploads[id - 1];
            && stored.prepared == PreparedMatrix(firstId + (id - 1), engineId, u.params, u.matrix)
            && stored.info == MatrixInfo(u.matrix.instanceId, u.matrix.columns)
  {
  }

  lemma EntryAccepted(ds: seq<Derivation>, params: EmvpParams, queries: nat, p: nat,
                      matrices: map<nat, StoredMatrix>, engineId: nat, firstId: nat, i: nat)
    requires Configured(ds, params, queries, p) && i < |ds|
    requires LoadedSet(matrices, engineId, firstId, UploadsFor(InstancesOf(ds, params, queries, p), params))
    ensures EntryFits(matrices, RequestFor(InstancesOf(ds, params, queries, p), OneTo(|ds|)), i)
  {
    hide ServableUpTo, Encrypted, QueryOf, StoredAt, Canonical;
    var uploads := UploadsFor(InstancesOf(ds, params, queries, p), params);
    var entries := RequestFor(InstancesOf(ds, params, queries, p), OneTo(|ds|));
    StoredHandle(uploads, engineId, firstId, i + 1);
    assert matrices[i + 1] == StoredAt(engineId, firstId, uploads, i + 1);
    var d := ds[i];
    assert Derivable(d, params, queries, p);
    EncryptedShape(d.sec, d.plaintext, p);
    forall j | 0 <= j < queries
      ensures entries[i].queries[j] == QueryOf(d.sec, d.queries[j], p, j)
      ensures var query := entries[i].queries[j];
              |query.values| == d.sec.N() && query.instanceId == d.sec.instanceId && query.queryId == j
    {
      QueryShape(d.sec, d.queries[j], p, j);
    }
    var info, sent := matrices[i + 1].info, entries[i].queries;
    forall j | 0 <= j < |sent| ensures QueryFits(info, sent, j) {}
  }

  /** The products entry served for matrix `i`. */
  ghost function ServedFor(ds: seq<Derivation>, params: EmvpParams, queries: nat, p: nat, engineId: nat, firstId: nat, i: nat): ProductEntry
    requires Configured(ds, params, queries, p) && i < |ds| && HandleFor(ds, params, queries, p, engineId, firstId, i).Valid() && p > 0
  {
    ServedEntry(i + 1, AnswerJob(HandleFor(ds, params, queries, p, engineId, firstId, i), InstanceOf(ds[i], params, queries, p).queries), p)
  }

  lemma ServedReady(ds: seq<Derivation>, params: EmvpParams, queries: nat, p: nat, engineId: nat, firstId: nat, i: nat)
    requires Configured(ds, params, queries, p) && i < |ds| < TWO64 - 1 && p > 0
    requires HandleFor(ds, params, queries, p, engineId, firstId, i).Valid() && params.b > 0
    ensures var e := ServedFor(ds, params, queries, p, engineId, firstId, i);
            && ProductSendable(e, p) && NaturalProduct(e) && ShapedAnswers(e)
            && |ProductPart(e).items| == queries
            && |ProductPart(e).values| == queries * ds[i].sec.rows * (2 * params.k / params.b)
    ensures var job := AnswerJob(HandleFor(ds, params, queries, p, engineId, firstId, i), InstanceOf(ds[i], params, queries, p).queries);
            AnswerWords(job) == queries * ds[i].sec.rows * (2 * params.k / params.b)
  {
    hide Encrypted, QueryOf, Canonical, AnswerOf, ValidateMatrixShape;
    var d := ds[i];
    ConfiguredShape(ds, params, queries, p);
    assert Derivable(d, params, queries, p);
    EncryptedShape(d.sec, d.plaintext, p);
    var handle := HandleFor(ds, params, queries, p, engineId, firstId, i);
    var e := ServedFor(ds, params, queries, p, engineId, firstId, i);
    ServedIsWritable(i + 1, AnswerJob(handle, InstanceOf(d, params, queries, p).queries), p);
    BlocksFit(handle);
    forall j | 0 <= j < queries ensures e.answers[j].queryId == j { QueryShape(d.sec, d.queries[j], p, j); }
    ProductPartCounts(e);
    ProductOfThree(queries, d.sec.rows, handle.Blocks());
  }

  lemma ProductPartCounts(e: ProductEntry)
    requires NaturalProduct(e) && PairedEntry(e)
    ensures |ProductPart(e).items| == |e.answers| && |ProductPart(e).values| == |e.answers| * (e.rows * e.blocks)
  {
    ConcatLength(AnswerChunks(e), e.rows * e.blocks);
  }

  // ----- What the client makes of the reply -----

  /** One served answer decodes to the plaintext product of its own query. */
  lemma AnswerCorrect(d: Derivation, params: EmvpParams, queries: nat, p: nat, j: nat)
    requires Derivable(d, params, queries, p) && queries > 0 && IndexAllowed(queries - 1) && j < queries
    requires d.sec.rows * d.sec.Blocks() < TWO64
    ensures var key := KeyOf(d.sec, d.queries[j], p, j);
            var served := AnswerOf(Encrypted(d.sec, d.plaintext, p), QueryOf(d.sec, d.queries[j], p, j).values,
                                   d.sec.b, d.sec.Blocks(), p);
            var answer := Answer(d.sec.instanceId, j, d.sec.rows, d.sec.Blocks(), served);
            && key.queryId == j && DecodeCheck(answer, key, d.sec.rows).Ok?
            && DecodedOf(answer, key, p) == ProtocolSpec.ProductOf(d.plaintext, d.queries[j], d.sec.rows, params.ell, p)
  {
    hide AnswerCell, MaskCell, Grid, CipherCell, QueryCell, DecodedCell;
    Correctness(d.sec, d.plaintext, d.queries[j], p, j);
    EncryptedShape(d.sec, d.plaintext, p);
  }

  lemma ServedVerifies(ds: seq<Derivation>, params: EmvpParams, queries: nat, p: nat, engineId: nat, firstId: nat, i: nat)
    requires Configured(ds, params, queries, p) && i < |ds| && p > 0
    requires HandleFor(ds, params, queries, p, engineId, firstId, i).Valid() && WellShaped(params)
    ensures InstanceShaped(InstanceOf(ds[i], params, queries, p))
    ensures EntryVerifies(ServedFor(ds, params, queries, p, engineId, firstId, i), InstanceOf(ds[i], params, queries, p), i + 1, params, p)
  {
    hide Encrypted, QueryOf, KeyOf, AnswerOf, DecodedOf, DecodeCheck, ValidateMatrixShape, WellShaped, ProtocolSpec.ProductOf;
    var d := ds[i];
    assert Derivable(d, params, queries, p);
    EncryptedShape(d.sec, d.plaintext, p);
    var instance := InstanceOf(d, params, queries, p);
    BlocksFit(HandleFor(ds, params, queries, p, engineId, firstId, i));
    var e := ServedFor(ds, params, queries, p, engineId, firstId, i);
    forall j | 0 <= j < queries ensures AnswerVerifies(e.answers[j], instance, j, p) {
      QueryShape(d.sec, d.queries[j], p, j);
      AnswerCorrect(d, params, queries, p, j);
    }
  }

  ghost predicate HandlesValid(ds: seq<Derivation>, params: EmvpParams, queries: nat, p: nat, engineId: nat, firstId: nat)
    requires Configured(ds, params, queries, p)
  {
    forall i | 0 <= i < |ds| :: HandleFor(ds, params, queries, p, engineId, firstId, i).Valid()
  }

  ghost function Reply(ds: seq<Derivation>, params: EmvpParams, queries: nat, p: nat, engineId: nat, firstId: nat): (products: seq<ProductEntry>)
    requires Configured(ds, params, queries, p) && HandlesValid(ds, params, queries, p, engineId, firstId) && p > 0
    ensures |products| == |ds|
  {
    seq(|ds|, i requires 0 <= i < |ds| => ServedFor(ds, params, queries, p, engineId, firstId, i))
  }

  lemma {:induction false} ReplyCounts(ds: seq<Derivation>, params: EmvpParams, queries: nat, p: nat, engineId: nat, firstId: nat, n: nat)
    requires Configured(ds, params, queries, p) && HandlesValid(ds, params, queries, p, engineId, firstId)
    requires n <= |ds| < TWO64 - 1 && p > 0 && params.b > 0
    requires var products := Reply(ds, params, queries, p, engineId, firstId);
             forall i | 0 <= i < |products| :: NaturalProduct(products[i])
    ensures var parts := ProductParts(Reply(ds, params, queries, p, engineId, firstId));
            ItemCountOf(parts, n) == n * queries && ValueCountOf(parts, n) == ReplyWords(ds, params, queries, n)
  {
    hide ServedFor, NaturalProduct, ProductPart, Configured;
    if n > 0 {
      ReplyCounts(ds, params, queries, p, engineId, firstId, n - 1);
      ServedReady(ds, params, queries, p, engineId, firstId, n - 1);
      assert (n - 1) * queries + queries == n * queries;
    }
  }

  /** The reply of a loaded server is sendable, has the predicted length, and
      every entry of it verifies. */
  lemma ReplyReady(ds: seq<Derivation>, params: EmvpParams, queries: nat, p: nat, engineId: nat, firstId: nat)
    requires Configured(ds, params, queries, p) && HandlesValid(ds, params, queries, p, engineId, firstId)
    requires |ds| < TWO64 - 1 && p > 0 && WellShaped(params)
    ensures var products := Reply(ds, params, queries, p, engineId, firstId);
            && (forall i | 0 <= i < |products| :: ProductSendable(products[i], p) && NaturalProduct(products[i]))
            && PayloadBytes(ProductsKind, ProductParts(products)) == ReplyLength(ds, params, queries)
    ensures forall i | 0 <= i < |ds| ::
              && InstanceShaped(InstancesOf(ds, params, queries, p)[i])
              && EntryVerifies(Reply(ds, params, queries, p, engineId, firstId)[i], InstancesOf(ds, params, queries, p)[i], i + 1, params, p)
  {
    hide ServedFor, InstanceOf, ProductSendable, NaturalProduct, EntryVerifies, InstanceShaped, WellShaped, ProductPart, HandleFor, Derivable;
    assert params.b > 0 by { DividesPositive(params); }
    var products := Reply(ds, params, queries, p, engineId, firstId);
    forall i | 0 <= i < |ds|
      ensures ProductSendable(products[i], p) && NaturalProduct(products[i])
      ensures InstanceShaped(InstancesOf(ds, params, queries, p)[i])
      ensures EntryVerifies(products[i], InstancesOf(ds, params, queries, p)[i], i + 1, params, p)
    {
      ServedReady(ds, params, queries, p, engineId, firstId, i);
      ServedVerifies(ds, params, queries, p, engineId, firstId, i);
    }
    ReplyCounts(ds, params, queries, p, engineId, firstId, |ds|);
    PayloadCounts(ProductsKind, ProductParts(products));
  }

  lemma DividesPositive(params: EmvpParams)
    requires WellShaped(params)
    ensures params.b >= 2
  {
  }

  lemma {:induction false} OffsetIsWords(ds: seq<Derivation>, params: EmvpParams, queries: nat, p: nat, engineId: nat, firstId: nat,
                                         jobs: seq<AnswerJob>, n: nat)
    requires Configured(ds, params, queries, p) && HandlesValid(ds, params, queries, p, engineId, firstId)
    requires n <= |ds| == |jobs| && |ds| < TWO64 - 1 && p > 0 && params.b > 0 && AllValid(jobs)
    requires forall i | 0 <= i < |ds| ::
               jobs[i] == AnswerJob(HandleFor(ds, params, queries, p, engineId, firstId, i), InstanceOf(ds[i], params, queries, p).queries)
    ensures Offset(jobs, n) == ReplyWords(ds, params, queries, n)
  {
    hide ServedFor, InstanceOf, HandleFor, AnswerWords, Derivable, ValidateMatrixShape;
    if n > 0 {
      OffsetIsWords(ds, params, queries, p, engineId, firstId, jobs, n - 1);
      ServedReady(ds, params, queries, p, engineId, firstId, n - 1);
    }
  }

  // ----- The frames -----

  /** `SizesFit` for a block size that divides the length. */
  ghost predicate SizesFitFor(ds: seq<Derivation>, params: EmvpParams, queries: nat) {
    WellShaped(params) && SizesFit(ds, params, queries)
  }

  lemma SmallSet(ds: seq<Derivation>, params: EmvpParams, queries: nat)
    requires SizesFitFor(ds, params, queries)
    ensures |ds| < TWO64 - 1 && WellShaped(params) && params.b > 0 && 8 + 8 * |ds| < TWO64
  {
  }

  /** The upload frame is written, it fits, and it carries the instances. */
  lemma UploadFrame(ds: seq<Derivation>, params: EmvpParams, queries: nat, p: nat)
    requires Configured(ds, params, queries, p) && SizesFitFor(ds, params, queries)
    ensures var uploads := UploadsFor(InstancesOf(ds, params, queries, p), params);
            && (forall i | 0 <= i < |uploads| :: NaturalUpload(uploads[i]))
            && PayloadBytes(UploadKind, UploadParts(uploads)) + HEADER_BYTES < TWO64
            && var payload := Encode(UploadKind, UploadParts(uploads)); |payload| < TWO64 && UploadIs(payload, p, uploads)
  {
    hide UploadIs, Encode, PayloadBytes, UploadsSendable, Derivable, InstanceOf;
    ConfiguredShape(ds, params, queries, p);
    UploadsReady(ds, params, queries, p);
    UploadArrives(UploadsFor(InstancesOf(ds, params, queries, p), params), p);
  }

  /** The request frame is written, it fits, and it carries the request. */
  lemma RequestFrame(ds: seq<Derivation>, params: EmvpParams, queries: nat, p: nat)
    requires Configured(ds, params, queries, p) && SizesFitFor(ds, params, queries)
    ensures var entries := RequestFor(InstancesOf(ds, params, queries, p), OneTo(|ds|));
            && (forall i | 0 <= i < |entries| :: NaturalEntry(entries[i]) && SameWidths(entries[i]))
            && PayloadBytes(EvaluateKind, EvaluateParts(entries)) + HEADER_BYTES < TWO64
            && var payload := Encode(EvaluateKind, EvaluateParts(entries));
               |payload| < TWO64 && RequestIs(payload, p) && RequestOf(payload, p) == entries
  {
    hide RequestIs, RequestOf, Encode, PayloadBytes, Derivable, InstanceOf, NaturalEntry, SameWidths, EntrySendable;
    ConfiguredShape(ds, params, queries, p);
    RequestsReady(ds, params, queries, p);
    RequestArrives(RequestFor(InstancesOf(ds, params, queries, p), OneTo(|ds|)), p);
  }

  /** A loaded set takes the request, and serves exactly the predicted reply. */
  lemma ReplyIsServed(ds: seq<Derivation>, params: EmvpParams, queries: nat, p: nat,
                      matrices: map<nat, StoredMatrix>, engineId: nat, firstId: nat)
    requires Configured(ds, params, queries, p) && p > 0
    requires LoadedSet(matrices, engineId, firstId, UploadsFor(InstancesOf(ds, params, queries, p), params))
    ensures HandlesValid(ds, params, queries, p, engineId, firstId)
    ensures var entries := RequestFor(InstancesOf(ds, params, queries, p), OneTo(|ds|));
            && ValidRequest(matrices, entries)
            && ServedProducts(entries, JobsOf(matrices, entries), p) == Reply(ds, params, queries, p, engineId, firstId)
  {
    hide Configured, InstanceOf, HandleFor, LoadedSet, ValidateMatrixShape, ServedEntry, EntriesFitUpTo;
    RequestAccepted(ds, params, queries, p, matrices, engineId, firstId);
    var entries := RequestFor(InstancesOf(ds, params, queries, p), OneTo(|ds|));
    var jobs := JobsOf(matrices, entries);
    forall i | 0 <= i < |ds| ensures HandleFor(ds, params, queries, p, engineId, firstId, i).Valid() { assert jobs[i].matrix.Valid(); }
    assert ServedProducts(entries, jobs, p) == Reply(ds, params, queries, p, engineId, firstId);
  }

  /** A loaded set answers the request with the reply's bytes, whichever handles
      it was given, and they fit. */
  lemma ReplyFrame(ds: seq<Derivation>, params: EmvpParams, queries: nat, p: nat,
                   matrices: map<nat, StoredMatrix>, engineId: nat, firstId: nat)
    requires Configured(ds, params, queries, p) && SizesFitFor(ds, params, queries)
    requires LoadedSet(matrices, engineId, firstId, UploadsFor(InstancesOf(ds, params, queries, p), params))
    ensures HandlesValid(ds, params, queries, p, engineId, firstId) && p > 0
    ensures var entries := RequestFor(InstancesOf(ds, params, queries, p), OneTo(|ds|));
            && ValidRequest(matrices, entries)
            && ServedProducts(entries, JobsOf(matrices, entries), p) == Reply(ds, params, queries, p, engineId, firstId)
            && Offset(JobsOf(matrices, entries), |entries|) < TWO64
            && ProductsLength(matrices, entries, p) + HEADER_BYTES < TWO64
  {
    SmallSet(ds, params, queries);
    ConfiguredShape(ds, params, queries, p);
    ReplyIsServed(ds, params, queries, p, matrices, engineId, firstId);
    ReplyBytes(ds, params, queries, p, matrices, engineId, firstId);
    ReplyWordsFit(ds, params, queries, p, matrices, engineId, firstId);
    hide *;
  }

  lemma ReplyBytes(ds: seq<Derivation>, params: EmvpParams, queries: nat, p: nat,
                   matrices: map<nat, StoredMatrix>, engineId: nat, firstId: nat)
    requires Configured(ds, params, queries, p) && SizesFitFor(ds, params, queries) && p > 0
    requires HandlesValid(ds, params, queries, p, engineId, firstId)
    requires var entries := RequestFor(InstancesOf(ds, params, queries, p), OneTo(|ds|));
             && ValidRequest(matrices, entries)
             && ServedProducts(entries, JobsOf(matrices, entries), p) == Reply(ds, params, queries, p, engineId, firstId)
    ensures ProductsLength(matrices, RequestFor(InstancesOf(ds, params, queries, p), OneTo(|ds|)), p) + HEADER_BYTES < TWO64
  {
    hide Configured, InstancesOf, RequestFor, ValidRequest, ServedProducts, Reply, HandlesValid, PayloadBytes, EntryVerifies, InstanceShaped,
         NaturalProduct, ProductSendable, ReplyLength, ProductPart;
    SmallSet(ds, params, queries);
    ReplyReady(ds, params, queries, p, engineId, firstId);
    assert ReplyLength(ds, params, queries) + HEADER_BYTES < TWO64;
  }

  lemma {:induction false} ReplyWordsFit(ds: seq<Derivation>, params: EmvpParams, queries: nat, p: nat,
                      matrices: map<nat, StoredMatrix>, engineId: nat, firstId: nat)
    requires Configured(ds, params, queries, p) && SizesFitFor(ds, params, queries) && p > 0
    requires HandlesValid(ds, params, queries, p, engineId, firstId)
    requires LoadedSet(matrices, engineId, firstId, UploadsFor(InstancesOf(ds, params, queries, p), params))
    requires ValidRequest(matrices, RequestFor(InstancesOf(ds, params, queries, p), OneTo(|ds|)))
    ensures Offset(JobsOf(matrices, RequestFor(InstancesOf(ds, params, queries, p), OneTo(|ds|))), |ds|) < TWO64
  {
    SmallSet(ds, params, queries);
    ReplyWordsSmall(ds, params, queries);
    hide Configured, InstanceOf, HandleFor, LoadedSet, ValidateMatrixShape, Offset, EntriesFitUpTo, HandlesValid, SizesFitFor, ReplyWords;
    RequestAccepted(ds, params, queries, p, matrices, engineId, firstId);
    var entries := RequestFor(InstancesOf(ds, params, queries, p), OneTo(|ds|));
    var jobs := JobsOf(matrices, entries);
    forall i | 0 <= i < |ds|
      ensures jobs[i] == AnswerJob(HandleFor(ds, params, queries, p, engineId, firstId, i), InstanceOf(ds[i], params, queries, p).queries)
    {
      assert entries[i].queries == InstanceOf(ds[i], params, queries, p).queries;
    }
    OffsetIsWords(ds, params, queries, p, engineId, firstId, jobs, |ds|);
  }

  lemma {:induction false} ReplyWordsSmall(ds: seq<Derivation>, params: EmvpParams, queries: nat)
    requires SizesFitFor(ds, params, queries)
    ensures params.b > 0 && ReplyWords(ds, params, queries, |ds|) < TWO64
  {
    assert params.b > 0;
    hide ReplyWords, UploadLength, RequestLength, Divides;
    MulMono(0, |ds|, queries);
  }

  /** The request's bytes are answered by whatever set the upload loaded. */
  lemma RequestIsAnswerable(ds: seq<Derivation>, params: EmvpParams, queries: nat, p: nat, engineId: nat, host: Host, payload: seq<Byte>)
    requires Configured(ds, params, queries, p) && SizesFitFor(ds, params, queries) && p > 0 && host.Generous(|ds|)
    requires RequestIs(payload, p) && RequestOf(payload, p) == RequestFor(InstancesOf(ds, params, queries, p), OneTo(|ds|))
    ensures Conversation.Answerable(payload, p, engineId, UploadsFor(InstancesOf(ds, params, queries, p), params), host)
  {
    hide Configured, SizesFitFor, LoadedSet, RequestIs, RequestOf, ValidRequest, ProductsLength, Offset, InstancesOf, RequestFor, UploadsFor;
    forall matrices, firstId | LoadedSet(matrices, engineId, firstId, UploadsFor(InstancesOf(ds, params, queries, p), params))
      ensures WillAnswer(matrices, payload, p, host)
    {
      ReplyFrame(ds, params, queries, p, matrices, engineId, firstId);
    }
  }

  /** The reply's bytes arrive as products that all verify. */
  lemma ReplyDelivered(ds: seq<Derivation>, params: EmvpParams, queries: nat, p: nat,
                       matrices: map<nat, StoredMatrix>, engineId: nat, firstId: nat)
    requires Configured(ds, params, queries, p) && SizesFitFor(ds, params, queries) && p > 0
    requires LoadedSet(matrices, engineId, firstId, UploadsFor(InstancesOf(ds, params, queries, p), params))
    requires ValidRequest(matrices, RequestFor(InstancesOf(ds, params, queries, p), OneTo(|ds|)))
    ensures HandlesValid(ds, params, queries, p, engineId, firstId)
    ensures var output := ProductsReply(matrices, RequestFor(InstancesOf(ds, params, queries, p), OneTo(|ds|)), p);
            Delivers(output, p, Reply(ds, params, queries, p, engineId, firstId)) && PastFrame(output, Products) == []
  {
    hide Encode, PayloadBytes, Derivable, InstanceOf, LoadedSet, NaturalProduct, FrameBytes, ParseMessage, ProductSendable,
         ServedFor, EntryVerifies, InstanceShaped, ProductPart, FromLE, PayloadAhead, ValidRequest, Offset;
    SmallSet(ds, params, queries);
    ConfiguredShape(ds, params, queries, p);
    ReplyFrame(ds, params, queries, p, matrices, engineId, firstId);
    ReplyReady(ds, params, queries, p, engineId, firstId);
    var products := Reply(ds, params, queries, p, engineId, firstId);
    ReplyArrives(products, p);
    LoneFrame(Products, Encode(ProductsKind, ProductParts(products)));
  }

  lemma LoneFrame(kind: FrameKind, payload: seq<Byte>)
    requires |payload| < TWO64
    ensures var input := FrameBytes(kind, payload);
            && FrameAhead(input, kind) && FromLE(input[1..HEADER_BYTES]) == |payload|
            && PayloadAhead(input, kind) == payload && PastFrame(input, kind) == [] && input[HEADER_BYTES..] == payload
  {
    hide FrameBytes, FromLE;
    FrameArrives(kind, payload, []);
    assert FrameBytes(kind, payload) + [] == FrameBytes(kind, payload) && payload + [] == payload;
  }

  lemma OneToAcknowledges(n: nat)
    requires 8 + 8 * n < TWO64
    ensures ParseIds(EncodeIds(OneTo(n))) == Ids(OneTo(n)) && DistinctIds(OneTo(n))
    ensures Acknowledges(FrameBytes(UploadAccepted, EncodeIds(OneTo(n))), n, OneTo(n))
  {
    hide FrameBytes, EncodeIds, ParseIds, PayloadAhead;
    ParseInvertsIds(OneTo(n));
    LoneFrame(UploadAccepted, EncodeIds(OneTo(n)));
  }

  // ----- The client's side -----

  method SendUpload(toServer: Sink, instances: seq<Instance>, params: EmvpParams)
    requires forall i | 0 <= i < |instances| :: NaturalUpload(UploadsFor(instances, params)[i])
    requires PayloadBytes(UploadKind, UploadParts(UploadsFor(instances, params))) + HEADER_BYTES < TWO64
    modifies toServer
    ensures toServer.output == old(toServer.output) + FrameBytes(UploadMatrices, Encode(UploadKind, UploadParts(UploadsFor(instances, params))))
  {
    hide FrameBytes, Encode, PayloadBytes, NaturalUpload, UploadPart;
    var written := toServer.WriteUploadMatrices(UploadsFor(instances, params));
  }

  method AwaitIds(clientIn: Stream, uploaded: nat, isText: seq<Byte> -> bool) returns (ids: seq<nat>)
    requires clientIn.input == FrameBytes(UploadAccepted, EncodeIds(OneTo(uploaded))) && 8 + 8 * uploaded < TWO64
    modifies clientIn
    ensures ids == OneTo(uploaded) && clientIn.input == []
  {
    hide FrameBytes, EncodeIds, FromLE, Acknowledges, PayloadAhead;
    OneToAcknowledges(uploaded);
    LoneFrame(UploadAccepted, EncodeIds(OneTo(uploaded)));
    assert Acknowledges(clientIn.input, uploaded, OneTo(uploaded));
    var reply := ReadUploadReply(clientIn, uploaded, false, isText);
    ids := reply.identifiers;
  }

  method SendRequest(buffers: ClientBuffers, toServer: Sink, instances: seq<Instance>, ids: seq<nat>)
    requires |instances| == |ids|
    requires forall i | 0 <= i < |instances| :: NaturalEntry(RequestFor(instances, ids)[i]) && SameWidths(RequestFor(instances, ids)[i])
    requires PayloadBytes(EvaluateKind, EvaluateParts(RequestFor(instances, ids))) + HEADER_BYTES < TWO64
    modifies buffers`queryRefs, toServer
    ensures toServer.output == old(toServer.output) + FrameBytes(Evaluate, Encode(EvaluateKind, EvaluateParts(RequestFor(instances, ids))))
  {
    hide FrameBytes, Encode, PayloadBytes, NaturalEntry, SameWidths, EvaluatePart;
    var entries := buffers.EvaluateEntries(instances, ids);
    assert entries == RequestFor(instances, ids);
    var written := toServer.WriteEvaluate(entries);
  }

  lemma {:induction false} EveryQueryCounts(ds: seq<Derivation>, params: EmvpParams, queries: nat, p: nat, n: nat)
    requires Configured(ds, params, queries, p) && n <= |ds|
    ensures TotalQueries(InstancesOf(ds, params, queries, p), n) == n * queries
  {
    hide InstanceOf;
    if n > 0 {
      EveryQueryCounts(ds, params, queries, p, n - 1);
      assert (n - 1) * queries + queries == n * queries;
    }
  }

  lemma ReplyVerifies(ds: seq<Derivation>, params: EmvpParams, queries: nat, p: nat, engineId: nat, firstId: nat)
    requires Configured(ds, params, queries, p) && HandlesValid(ds, params, queries, p, engineId, firstId)
    requires |ds| < TWO64 - 1 && p > 0 && WellShaped(params)
    ensures forall i | 0 <= i < |ds| ::
              && InstanceShaped(InstancesOf(ds, params, queries, p)[i])
              && EntryVerifies(Reply(ds, params, queries, p, engineId, firstId)[i], InstancesOf(ds, params, queries, p)[i],
                               OneTo(|ds|)[i], params, p)
  {
    hide Configured, WellShaped, HandlesValid, InstanceOf, EntryVerifies, InstanceShaped, Reply, PayloadBytes, NaturalProduct,
         ProductSendable, ProductPart;
    ReplyReady(ds, params, queries, p, engineId, firstId);
  }

  /** The client takes the reply off the connection and verifies every product. */
  method VerifyReply(clientIn: Stream, buffers: ClientBuffers, replies: Workspace, instances: seq<Instance>, ids: seq<nat>,
                     params: EmvpParams, ghost ds: seq<Derivation>, ghost queries: nat, p: nat, ghost engineId: nat, ghost firstId: nat,
                     rowOrders: nat -> seq<int>, isText: seq<Byte> -> bool) returns (r: Check, verified: nat)
    requires Configured(ds, params, queries, p) && p > 0 && instances == InstancesOf(ds, params, queries, p) && ids == OneTo(|ds|)
    requires WellShaped(params) && |ds| < TWO64 - 1 && HandlesValid(ds, params, queries, p, engineId, firstId)
    requires Delivers(clientIn.input, p, Reply(ds, params, queries, p, engineId, firstId)) && PastFrame(clientIn.input, Products) == []
    requires buffers.Apart() && forall rows :: Permutes(rowOrders(rows), rows)
    modifies clientIn, buffers, buffers.decoded, buffers.expected, replies, replies.arena
    ensures r.Passed? && verified == |ds| * queries && clientIn.input == []
  {
    hide Configured, WellShaped, HandlesValid, InstanceOf, Delivers, EntryVerifies, InstanceShaped, Permutes, Reply, PastFrame,
         TotalQueries;
    ReplyVerifies(ds, params, queries, p, engineId, firstId);
    var reply := ReadProducts(clientIn, replies, false, NoRefusal, isText, p);
    r, verified := buffers.VerifyProducts(reply.products, instances, ids, params, rowOrders, p);
    EveryQueryCounts(ds, params, queries, p, |ds|);
  }

  // ----- The run -----

  /** What a fresh server sends over a connection on which the client sends these
      bytes and then closes. */
  method ServeBytes(input: seq<Byte>, engineId: nat, p: nat, nextMatrixId: nat, hosts: nat -> Host)
    returns (output: seq<Byte>, fate: Fate, ghost trace: seq<Event>, ghost tail: seq<Byte>)
    requires p > 0 && forall i :: hosts(i).Fair(p)
    ensures Served(trace, input, p, engineId, hosts) && Ended(trace, input, fate, tail) && output == Replies(trace) + tail
  {
    hide Served, Ended, Replies, Host.Fair;
    var stream := new Stream(input);
    var sink := new Sink();
    var server := new ServerSession(engineId, p, nextMatrixId);
    fate, trace, tail := server.ServeConnection(stream, sink, hosts);
    output := sink.output;
  }

  /** What the connection loop sends once it has been sent the upload. */
  method ServeUpload(ghost ds: seq<Derivation>, params: EmvpParams, ghost queries: nat, p: nat, input: seq<Byte>,
                     engineId: nat, nextMatrixId: nat, hosts: nat -> Host) returns (output: seq<Byte>, fate: Fate)
    requires Configured(ds, params, queries, p) && SizesFitFor(ds, params, queries) && p > 0
    requires (forall i :: hosts(i).Fair(p)) && hosts(0).Generous(|ds|)
    requires var uploads := UploadsFor(InstancesOf(ds, params, queries, p), params);
             && (forall i | 0 <= i < |uploads| :: NaturalUpload(uploads[i]))
             && input == FrameBytes(UploadMatrices, Encode(UploadKind, UploadParts(uploads)))
    ensures fate == Clean && output == FrameBytes(UploadAccepted, EncodeIds(OneTo(|ds|)))
  {
    hide Configured, SizesFitFor, FrameBytes, Encode, PayloadBytes, UploadIs, EncodeIds, Served, Ended, Replies, UploadPart, Host.Fair, InstanceOf,
         NaturalUpload;
    ghost var trace, tail;
    output, fate, trace, tail := ServeBytes(input, engineId, p, nextMatrixId, hosts);
    UploadFrame(ds, params, queries, p);
    ghost var uploads := UploadsFor(InstancesOf(ds, params, queries, p), params);
    UploadAlone(trace, input, fate, tail, p, engineId, hosts, Encode(UploadKind, UploadParts(uploads)), uploads);
  }

  /** What the connection loop sends once it has been sent the upload and then the
      request: the same acknowledgment, then products that reach the client. */
  method ServeBoth(ghost ds: seq<Derivation>, params: EmvpParams, ghost queries: nat, p: nat, input: seq<Byte>,
                   engineId: nat, nextMatrixId: nat, hosts: nat -> Host)
    returns (output: seq<Byte>, fate: Fate, ghost firstId: nat, ghost products: seq<Byte>)
    requires Configured(ds, params, queries, p) && SizesFitFor(ds, params, queries) && p > 0
    requires (forall i :: hosts(i).Fair(p)) && hosts(0).Generous(|ds|) && hosts(1).Generous(|ds|)
    requires var instances := InstancesOf(ds, params, queries, p);
             && (forall i | 0 <= i < |ds| :: NaturalUpload(UploadsFor(instances, params)[i]))
             && (forall i | 0 <= i < |ds| :: NaturalEntry(RequestFor(instances, OneTo(|ds|))[i]))
             && input == FrameBytes(UploadMatrices, Encode(UploadKind, UploadParts(UploadsFor(instances, params))))
                         + FrameBytes(Evaluate, Encode(EvaluateKind, EvaluateParts(RequestFor(instances, OneTo(|ds|)))))
    ensures fate == Clean && output == FrameBytes(UploadAccepted, EncodeIds(OneTo(|ds|))) + products
    ensures HandlesValid(ds, params, queries, p, engineId, firstId)
    ensures Delivers(products, p, Reply(ds, params, queries, p, engineId, firstId)) && PastFrame(products, Products) == []
  {
    hide Configured, SizesFitFor, FrameBytes, Encode, PayloadBytes, UploadIs, EncodeIds, Served, Ended, Replies, UploadPart, EvaluatePart,
         Host.Fair, InstanceOf, NaturalUpload, NaturalEntry, SameWidths, RequestIs, RequestOf, LoadedSet, ValidRequest, ProductsReply,
         Conversation.Answerable, Delivers, PastFrame, HandlesValid, Reply;
    ghost var trace, tail;
    output, fate, trace, tail := ServeBytes(input, engineId, p, nextMatrixId, hosts);
    UploadFrame(ds, params, queries, p);
    RequestFrame(ds, params, queries, p);
    ghost var instances := InstancesOf(ds, params, queries, p);
    ghost var uploads, entries := UploadsFor(instances, params), RequestFor(instances, OneTo(|ds|));
    ghost var upload, request := Encode(UploadKind, UploadParts(uploads)), Encode(EvaluateKind, EvaluateParts(entries));
    RequestIsAnswerable(ds, params, queries, p, engineId, hosts(1), request);
    UploadThenRequest(trace, input, fate, tail, p, engineId, hosts, upload, uploads, request);
    ghost var matrices := trace[0].handled.after.matrices;
    firstId := trace[0].handled.firstId;
    products := ProductsReply(matrices, entries, p);
    ReplyDelivered(ds, params, queries, p, matrices, engineId, firstId);
  }

  /** The conversation, for instances already derived. The client writes its
      upload and reads what the connection loop sends for it; then it writes its
      request and reads what the loop sends beyond that. */
  method Converse(instances: seq<Instance>, ghost ds: seq<Derivation>, params: EmvpParams, ghost queries: nat, p: nat,
                  engineId: nat, nextMatrixId: nat, rowOrders: nat -> seq<int>, isText: seq<Byte> -> bool, hosts: nat -> Host)
    returns (ids: seq<nat>, r: Check, verified: nat, fate: Fate)
    requires Configured(ds, params, queries, p) && SizesFitFor(ds, params, queries) && instances == InstancesOf(ds, params, queries, p)
    requires p > 0 && forall rows :: Permutes(rowOrders(rows), rows)
    requires (forall i :: hosts(i).Fair(p)) && hosts(0).Generous(|ds|) && hosts(1).Generous(|ds|)
    ensures ids == OneTo(|ds|) && r.Passed? && verified == |ds| * queries && fate == Clean
  {
    hide Configured, SizesFitFor, Permutes, FrameBytes, Encode, PayloadBytes, EncodeIds, UploadPart, EvaluatePart, Host.Fair, InstanceOf,
         NaturalUpload, NaturalEntry, SameWidths, UploadIs, RequestIs, RequestOf, HandlesValid, Delivers, PastFrame, Reply, WellShaped;
    SmallSet(ds, params, queries);
    UploadFrame(ds, params, queries, p);
    RequestFrame(ds, params, queries, p);
    var toServer := new Sink();
    var clientIn := new Stream([]);
    var buffers := new ClientBuffers();
    var replies := new Workspace();

    SendUpload(toServer, instances, params);
    ghost var upload := FrameBytes(UploadMatrices, Encode(UploadKind, UploadParts(UploadsFor(instances, params))));
    assert toServer.output == upload;
    var acknowledged, soFar := ServeUpload(ds, params, queries, p, toServer.output, engineId, nextMatrixId, hosts);
    clientIn.input := acknowledged;
    ids := AwaitIds(clientIn, |instances|, isText);

    SendRequest(buffers, toServer, instances, ids);
    ghost var firstId, products;
    var output;
    output, fate, firstId, products := ServeBoth(ds, params, queries, p, toServer.output, engineId, nextMatrixId, hosts);
    assert output[|acknowledged|..] == products;
    clientIn.input := output[|acknowledged|..];
    r, verified := VerifyReply(clientIn, buffers, replies, instances, ids, params, ds, queries, p, engineId, firstId, rowOrders, isText);
  }

  /** Any list of matrices and any positive number of queries, however the work is
      scheduled on either side and whatever counts as text: every product verifies, the identifiers are
      `1 ..= n`, and the connection loop ends cleanly. */
  method Run(ds: seq<Derivation>, params: EmvpParams, queries: nat, p: nat, engineId: nat, nextMatrixId: nat,
             rowOrders: nat -> seq<int>, workers: nat, schedule: seq<Assignment>, isText: seq<Byte> -> bool, hosts: nat -> Host)
    returns (ids: seq<nat>, r: Check, verified: nat, fate: Fate)
    requires Configured(ds, params, queries, p) && SizesFitFor(ds, params, queries)
    requires (forall rows :: Permutes(rowOrders(rows), rows)) && CoversOnce(schedule, workers, queries)
    requires (forall i :: hosts(i).Fair(p)) && hosts(0).Generous(|ds|) && hosts(1).Generous(|ds|)
    ensures ids == OneTo(|ds|) && r.Passed? && verified == |ds| * queries && fate == Clean
  {
    hide Configured, SizesFitFor, Permutes, CoversOnce, InstancesOf, Host.Fair;
    ConfiguredShape(ds, params, queries, p);
    var instances := DeriveInstances(ds, params, queries, rowOrders, workers, schedule, p);
    ids, r, verified, fate := Converse(instances, ds, params, queries, p, engineId, nextMatrixId, rowOrders, isText, hosts);
  }
}
