/** The multi-matrix answer engine: plan, reserve, execute over one arena, for an
    engine that evaluates every matrix on the CPU. */
module Engine {
  import opened Answering
  import opened Arithmetic
  import opened Encryption
  import opened ParallelTier
  import opened ParameterSets
  import opened ProtocolSpec
  import opened Sums

  /** A validated, retained matrix. */
  datatype PreparedMatrix = PreparedMatrix(id: nat, engineId: nat, params: EmvpParams, matrix: EncryptedMatrix) {
    ghost predicate Valid() { ValidateMatrixShape(params, matrix).Shaped? }

    function Blocks(): nat
      requires Valid()
    {
      matrix.columns / params.b
    }
  }

  datatype AnswerJob = AnswerJob(matrix: PreparedMatrix, queries: seq<EncryptedQuery>)

  datatype Backend = SingleCore | Rayon

  datatype AnswerShape = AnswerShape(rows: nat, blocks: nat, queries: nat, instanceId: nat) {
    function ArenaWords(): nat { queries * rows * blocks }
  }

  datatype EntryPlan = EntryPlan(matrix: PreparedMatrix, queries: seq<EncryptedQuery>, shape: AnswerShape,
                                 backend: Backend, offsetWords: nat)

  datatype EnginePlan = EnginePlan(entries: seq<EntryPlan>, totalWords: nat)

  datatype EngineError =
    | EmptyJobs
    | EmptyQueries(entry: nat)
    | RepeatedMatrix(entry: nat)
    | ForeignMatrix(entry: nat)
    | ProtocolFailure(entry: nat, source: ProtocolError)
    | Capacity(required: nat, available: nat)

  datatype PlanResult = Planned(plan: EnginePlan) | PlanRejected(error: EngineError)

  function Values(queries: seq<EncryptedQuery>): (v: seq<seq<int>>)
    ensures |v| == |queries|
  {
    seq(|queries|, i requires 0 <= i < |queries| => queries[i].values)
  }

  // ----- What an acceptable request is -----

  ghost predicate QueriesFit(job: AnswerJob) {
    forall q | 0 <= q < |job.queries| :: ValidateQuery(job.matrix.matrix.columns, job.matrix.matrix.instanceId, job.queries[q]).Ok?
  }

  ghost predicate NotRepeated(jobs: seq<AnswerJob>, i: nat)
    requires i < |jobs|
  {
    forall j | 0 <= j < i :: jobs[j].matrix.id != jobs[i].matrix.id
  }

  ghost predicate EntryAcceptable(engineId: nat, jobs: seq<AnswerJob>, i: nat)
    requires i < |jobs|
  {
    jobs[i].matrix.engineId == engineId && NotRepeated(jobs, i) && jobs[i].queries != [] && QueriesFit(jobs[i])
  }

  function AnswerWords(job: AnswerJob): nat
    requires job.matrix.Valid()
  {
    |job.queries| * job.matrix.matrix.rows * job.matrix.Blocks()
  }

  /** Arena words planned before entry `i`. */
  function Offset(jobs: seq<AnswerJob>, i: nat): nat
    requires i <= |jobs| && forall j | 0 <= j < |jobs| :: jobs[j].matrix.Valid()
  {
    if i == 0 then 0 else Offset(jobs, i - 1) + AnswerWords(jobs[i - 1])
  }

  ghost predicate AllValid(jobs: seq<AnswerJob>) { forall j | 0 <= j < |jobs| :: jobs[j].matrix.Valid() }

  /** The entry a job plans to, at its arena offset. */
  ghost predicate PlansTo(entry: EntryPlan, job: AnswerJob, offset: nat)
    requires job.matrix.Valid()
  {
    && entry.matrix == job.matrix && entry.queries == job.queries
    && entry.shape == AnswerShape(job.matrix.matrix.rows, job.matrix.Blocks(), |job.queries|, job.matrix.matrix.instanceId)
    && entry.offsetWords == offset
  }

  // ----- Planning -----

  method FirstMisfit(job: AnswerJob) returns (i: nat)
    ensures i <= |job.queries|
    ensures i == |job.queries| <==> QueriesFit(job)
    ensures i < |job.queries| ==> ValidateQuery(job.matrix.matrix.columns, job.matrix.matrix.instanceId, job.queries[i]).Err?
    ensures forall q | 0 <= q < i :: ValidateQuery(job.matrix.matrix.columns, job.matrix.matrix.instanceId, job.queries[q]).Ok?
  {
    i := 0;
    while i < |job.queries|
      invariant 0 <= i <= |job.queries|
      invariant forall q | 0 <= q < i ::
                  ValidateQuery(job.matrix.matrix.columns, job.matrix.matrix.instanceId, job.queries[q]).Ok?
    {
      if ValidateQuery(job.matrix.matrix.columns, job.matrix.matrix.instanceId, job.queries[i]).Err? { return; }
      i := i + 1;
    }
  }

  /** Validates every entry and lays the arena out; `tier` stands for the
      dispatch policy. A request plans exactly when it is not empty, every entry
      is acceptable, and the words fit; a rejection names the first bad entry. */
  method PlanJobs(engineId: nat, jobs: seq<AnswerJob>, tier: (nat, nat, nat) -> Backend) returns (r: PlanResult)
    requires AllValid(jobs)
    ensures r.Planned? <==> jobs != [] && AcceptedUpTo(engineId, jobs, |jobs|) && Offset(jobs, |jobs|) < TWO64
    ensures r.Planned? ==> r.plan.totalWords == Offset(jobs, |jobs|) && PlannedUpTo(r.plan.entries, jobs, |jobs|)
    ensures r.PlanRejected? ==> Explains(engineId, jobs, r.error)
  {
    hide EntryAcceptable, AnswerWords, PlansTo, SeenSoFar, ValidateMatrixShape, WellShaped, AcceptedUpTo, PlannedUpTo;
    assert AcceptedUpTo(engineId, jobs, 0) && PlannedUpTo([], jobs, 0) by { NothingPlanned(engineId, jobs); }
    if jobs == [] { return PlanRejected(EmptyJobs); }
    var seen: set<nat> := {};
    var entries: seq<EntryPlan> := [];
    var offset, i := 0, 0;
    SeenNone(jobs);
    while i < |jobs|
      invariant 0 <= i <= |jobs| && |entries| == i && offset == Offset(jobs, i) < TWO64
      invariant AcceptedUpTo(engineId, jobs, i) && PlannedUpTo(entries, jobs, i) && SeenSoFar(seen, jobs, i)
    {
      OffsetGrows(jobs, i + 1, |jobs|);
      var checked := ValidateEntry(engineId, jobs, i, seen, offset, tier);
      if checked.EntryRejected? {
        NotAllAccepted(engineId, jobs, i);
        return PlanRejected(checked.error);
      }
      PlannedStep(engineId, entries, checked.entry, jobs, i);
      SeenStep(seen, jobs, i);
      seen := seen + {jobs[i].matrix.id};
      entries := entries + [checked.entry];
      offset := offset + checked.words;
      i := i + 1;
    }
    r := Planned(EnginePlan(entries, offset));
  }

  ghost predicate AcceptedUpTo(engineId: nat, jobs: seq<AnswerJob>, i: nat) {
    i <= |jobs| && forall j | 0 <= j < i :: EntryAcceptable(engineId, jobs, j)
  }

  ghost predicate PlannedUpTo(entries: seq<EntryPlan>, jobs: seq<AnswerJob>, i: nat)
    requires AllValid(jobs)
  {
    i <= |jobs| && |entries| == i && forall j | 0 <= j < i :: PlansTo(entries[j], jobs[j], Offset(jobs, j))
  }

  /** Acceptance composes: two requests are acceptable together exactly when each
      is and they share no handle; one job needs this engine, queries, and queries
      of its matrix's width and instance. */
  lemma AcceptanceComposes(engineId: nat, a: seq<AnswerJob>, b: seq<AnswerJob>, job: AnswerJob)
    ensures AcceptedUpTo(engineId, a + b, |a + b|) <==>
              && AcceptedUpTo(engineId, a, |a|) && AcceptedUpTo(engineId, b, |b|)
              && forall i, j | 0 <= i < |a| && 0 <= j < |b| :: a[i].matrix.id != b[j].matrix.id
    ensures AcceptedUpTo(engineId, [job], 1) <==>
              && job.matrix.engineId == engineId && job.queries != []
              && forall q | 0 <= q < |job.queries| ::
                   |job.queries[q].values| == job.matrix.matrix.columns && job.queries[q].instanceId == job.matrix.matrix.instanceId
  {
    var c := a + b;
    if AcceptedUpTo(engineId, c, |c|) {
      forall j | 0 <= j < |a| ensures EntryAcceptable(engineId, a, j) {
        assert EntryAcceptable(engineId, c, j) && forall i | 0 <= i <= j :: c[i] == a[i];
      }
      forall j | 0 <= j < |b|
        ensures EntryAcceptable(engineId, b, j) && forall i | 0 <= i < |a| :: a[i].matrix.id != b[j].matrix.id
      {
        assert EntryAcceptable(engineId, c, |a| + j) && forall i | 0 <= i <= j :: c[|a| + i] == b[i];
        forall i | 0 <= i < |a| ensures a[i].matrix.id != b[j].matrix.id { assert c[i] == a[i]; }
      }
    }
    if AcceptedUpTo(engineId, a, |a|) && AcceptedUpTo(engineId, b, |b|)
       && forall i, j | 0 <= i < |a| && 0 <= j < |b| :: a[i].matrix.id != b[j].matrix.id {
      forall j | 0 <= j < |c| ensures EntryAcceptable(engineId, c, j) {
        if j < |a| { assert EntryAcceptable(engineId, a, j); } else { assert EntryAcceptable(engineId, b, j - |a|); }
      }
    }
    if AcceptedUpTo(engineId, [job], 1) { assert EntryAcceptable(engineId, [job], 0); }
  }

  lemma NothingPlanned(engineId: nat, jobs: seq<AnswerJob>)
    requires AllValid(jobs)
    ensures AcceptedUpTo(engineId, jobs, 0) && PlannedUpTo([], jobs, 0)
  {
  }

  lemma PlannedStep(engineId: nat, entries: seq<EntryPlan>, entry: EntryPlan, jobs: seq<AnswerJob>, i: nat)
    requires AllValid(jobs) && i < |jobs| && AcceptedUpTo(engineId, jobs, i) && PlannedUpTo(entries, jobs, i)
    requires EntryAcceptable(engineId, jobs, i) && PlansTo(entry, jobs[i], Offset(jobs, i))
    ensures AcceptedUpTo(engineId, jobs, i + 1) && PlannedUpTo(entries + [entry], jobs, i + 1)
  {
    hide EntryAcceptable, PlansTo, Offset, ValidateMatrixShape;
  }

  lemma NotAllAccepted(engineId: nat, jobs: seq<AnswerJob>, i: nat)
    requires i < |jobs|
    ensures !EntryAcceptable(engineId, jobs, i) ==> !AcceptedUpTo(engineId, jobs, |jobs|)
    ensures AcceptedUpTo(engineId, jobs, i) ==> FirstBad(engineId, jobs, i)
  {
  }

  datatype EntryResult = EntryPlanned(entry: EntryPlan, words: nat) | EntryRejected(error: EngineError)

  ghost predicate SeenSoFar(seen: set<nat>, jobs: seq<AnswerJob>, i: nat)
    requires i <= |jobs|
  {
    forall x :: x in seen <==> exists j :: 0 <= j < i && jobs[j].matrix.id == x
  }

  lemma SeenNone(jobs: seq<AnswerJob>)
    ensures SeenSoFar({}, jobs, 0)
  {
  }

  lemma SeenStep(seen: set<nat>, jobs: seq<AnswerJob>, i: nat)
    requires i < |jobs| && SeenSoFar(seen, jobs, i)
    ensures SeenSoFar(seen + {jobs[i].matrix.id}, jobs, i + 1)
  {
    forall x ensures x in seen + {jobs[i].matrix.id} <==> exists j :: 0 <= j < i + 1 && jobs[j].matrix.id == x {
      if x in seen {
        var j :| 0 <= j < i && jobs[j].matrix.id == x;
        assert 0 <= j < i + 1;
      }
    }
  }

  /** The engine, repeat, query and size checks of one entry, in that order. */
  method ValidateEntry(engineId: nat, jobs: seq<AnswerJob>, i: nat, seen: set<nat>, offset: nat,
                       tier: (nat, nat, nat) -> Backend) returns (r: EntryResult)
    requires AllValid(jobs) && i < |jobs| && SeenSoFar(seen, jobs, i) && offset == Offset(jobs, i) < TWO64
    requires AcceptedUpTo(engineId, jobs, i)
    ensures r.EntryPlanned? <==> EntryAcceptable(engineId, jobs, i) && Offset(jobs, i + 1) < TWO64
    ensures r.EntryPlanned? ==> PlansTo(r.entry, jobs[i], offset) && offset + r.words == Offset(jobs, i + 1)
    ensures r.EntryRejected? ==> Explains(engineId, jobs, r.error)
  {
    hide AnswerWords, QueriesFit;
    var job := jobs[i];
    if job.matrix.engineId != engineId { return EntryRejected(ForeignMatrix(i)); }
    if job.matrix.id in seen { return EntryRejected(RepeatedMatrix(i)); }
    if job.queries == [] { return EntryRejected(EmptyQueries(i)); }
    var misfit := FirstMisfit(job);
    if misfit < |job.queries| {
      var check := ValidateQuery(job.matrix.matrix.columns, job.matrix.matrix.instanceId, job.queries[misfit]);
      return EntryRejected(ProtocolFailure(i, check.error));
    }
    var words := AnswerWords(job);
    if words >= TWO64 || offset + words >= TWO64 { return EntryRejected(ProtocolFailure(i, Overflow)); }
    var rows, blocks, n := job.matrix.matrix.rows, job.matrix.Blocks(), job.matrix.matrix.columns;
    var shape := AnswerShape(rows, blocks, |job.queries|, job.matrix.matrix.instanceId);
    r := EntryPlanned(EntryPlan(job.matrix, job.queries, shape, tier(|job.queries|, rows, n), offset), words);
  }

  /** The first query that does not fit is refused for this reason. */
  ghost predicate BlamesMisfit(job: AnswerJob, source: ProtocolError) {
    exists q: nat :: q < |job.queries| && ValidateQuery(job.matrix.matrix.columns, job.matrix.matrix.instanceId, job.queries[q]) == Err(source)
                     && forall j: nat | j < q ::
                          ValidateQuery(job.matrix.matrix.columns, job.matrix.matrix.instanceId, job.queries[j]).Ok?
  }

  /** The named entry is the first one that fails, for the first check it fails. */
  ghost predicate Explains(engineId: nat, jobs: seq<AnswerJob>, error: EngineError)
    requires AllValid(jobs)
  {
    match error
    case EmptyJobs => jobs == []
    case ForeignMatrix(e) => FirstBad(engineId, jobs, e) && jobs[e].matrix.engineId != engineId
    case RepeatedMatrix(e) => FirstBad(engineId, jobs, e) && jobs[e].matrix.engineId == engineId && !NotRepeated(jobs, e)
    case EmptyQueries(e) =>
      FirstBad(engineId, jobs, e) && jobs[e].matrix.engineId == engineId && NotRepeated(jobs, e) && jobs[e].queries == []
    case ProtocolFailure(e, source) =>
      && FirstBad(engineId, jobs, e) && jobs[e].matrix.engineId == engineId && NotRepeated(jobs, e) && jobs[e].queries != []
      && if QueriesFit(jobs[e]) then source == Overflow && Offset(jobs, e + 1) >= TWO64 else BlamesMisfit(jobs[e], source)
    case Capacity(_, _) => false
  }

  ghost predicate FirstBad(engineId: nat, jobs: seq<AnswerJob>, e: nat) {
    e < |jobs| && forall j | 0 <= j < e :: EntryAcceptable(engineId, jobs, j)
  }

  lemma {:induction false} OffsetGrows(jobs: seq<AnswerJob>, i: nat, j: nat)
    requires AllValid(jobs) && i <= j <= |jobs|
    ensures Offset(jobs, i) <= Offset(jobs, j)
  {
    if i < j { OffsetGrows(jobs, i, j - 1); }
  }

  /** A planned entry's range runs from its own offset to the next one. */
  lemma PlannedRange(jobs: seq<AnswerJob>, entries: seq<EntryPlan>, i: nat)
    requires AllValid(jobs) && PlannedUpTo(entries, jobs, |jobs|) && i < |jobs|
    ensures entries[i].offsetWords == Offset(jobs, i) && RangeEnd(entries[i]) == Offset(jobs, i + 1)
  {
    hide ValidateMatrixShape;
    assert PlansTo(entries[i], jobs[i], Offset(jobs, i));
    assert Offset(jobs, i + 1) == Offset(jobs, i) + AnswerWords(jobs[i]);
  }

  /** Consecutive, disjoint ranges that tile the arena. */
  lemma {:induction false} RangesTile(jobs: seq<AnswerJob>, plan: EnginePlan, i: nat, j: nat)
    requires AllValid(jobs) && PlannedUpTo(plan.entries, jobs, |jobs|) && plan.totalWords == Offset(jobs, |jobs|)
    requires i < j < |jobs|
    ensures plan.entries[0].offsetWords == 0
    ensures RangeEnd(plan.entries[i]) <= plan.entries[j].offsetWords
    ensures plan.entries[i + 1].offsetWords == RangeEnd(plan.entries[i])
    ensures RangeEnd(plan.entries[|jobs| - 1]) == plan.totalWords
  {
    hide ValidateMatrixShape, PlannedUpTo, AnswerWords, RangeEnd;
    PlannedRange(jobs, plan.entries, 0);
    PlannedRange(jobs, plan.entries, i);
    PlannedRange(jobs, plan.entries, i + 1);
    PlannedRange(jobs, plan.entries, j);
    PlannedRange(jobs, plan.entries, |jobs| - 1);
    OffsetGrows(jobs, i + 1, j);
  }

  // ----- Execution -----

  /** A plan over valid matrices with fitting queries and consecutive ranges:
      what planning produces, whatever jobs it came from. */
  ghost predicate WellPlanned(plan: EnginePlan) {
    && (forall e | 0 <= e < |plan.entries| :: EntryWell(plan.entries[e]))
    && (forall e | 0 <= e < |plan.entries| :: RangeEnd(plan.entries[e]) <= NextStart(plan, e))
  }

  ghost predicate EntryWell(entry: EntryPlan) {
    && entry.matrix.Valid() && QueriesFit(AnswerJob(entry.matrix, entry.queries))
    && entry.shape == AnswerShape(entry.matrix.matrix.rows, entry.matrix.Blocks(), |entry.queries|, entry.matrix.matrix.instanceId)
  }

  function RangeEnd(entry: EntryPlan): (end: nat)
    ensures end >= entry.offsetWords
  {
    entry.offsetWords + entry.shape.ArenaWords()
  }

  lemma PlannedEntry(plan: EnginePlan, e: nat)
    requires WellPlanned(plan) && e < |plan.entries|
    ensures EntryWell(plan.entries[e])
  {
  }

  function NextStart(plan: EnginePlan, e: nat): nat
    requires e < |plan.entries|
  {
    if e + 1 < |plan.entries| then plan.entries[e + 1].offsetWords else plan.totalWords
  }

  lemma {:induction false} PlannedIsWellPlanned(engineId: nat, jobs: seq<AnswerJob>, plan: EnginePlan)
    requires AllValid(jobs) && AcceptedUpTo(engineId, jobs, |jobs|)
    requires PlannedUpTo(plan.entries, jobs, |jobs|) && plan.totalWords == Offset(jobs, |jobs|)
    ensures WellPlanned(plan)
  {
    hide ValidateMatrixShape, Offset, AnswerWords;
    forall e | 0 <= e < |jobs| ensures EntryWell(plan.entries[e]) && RangeEnd(plan.entries[e]) <= NextStart(plan, e) {
      PlannedRange(jobs, plan.entries, e);
      if e + 1 < |jobs| { PlannedRange(jobs, plan.entries, e + 1); }
      PlannedFits(engineId, jobs, plan.entries, e);
    }
  }

  lemma PlannedFits(engineId: nat, jobs: seq<AnswerJob>, entries: seq<EntryPlan>, e: nat)
    requires AllValid(jobs) && AcceptedUpTo(engineId, jobs, |jobs|) && PlannedUpTo(entries, jobs, |jobs|) && e < |jobs|
    ensures EntryWell(entries[e])
  {
    hide ValidateMatrixShape, ValidateQuery;
    assert EntryAcceptable(engineId, jobs, e) && PlansTo(entries[e], jobs[e], Offset(jobs, e));
    assert jobs[e] == AnswerJob(entries[e].matrix, entries[e].queries);
  }

  /** The answers of one entry, in query order. */
  ghost function EntryAnswers(entry: EntryPlan, p: int): (a: seq<int>)
    requires p > 0 && EntryWell(entry)
    ensures |a| == entry.shape.ArenaWords()
  {
    ProductOfThree(|entry.queries|, entry.matrix.matrix.rows, entry.shape.blocks);
    BatchOf(entry.matrix.matrix, Values(entry.queries), entry.matrix.params.b, entry.shape.blocks, p)
  }

  function WorkOf(entry: EntryPlan, p: int): Work {
    Work(entry.matrix.matrix, Values(entry.queries), entry.matrix.params.b, entry.shape.blocks, p)
  }

  lemma EntryWork(entry: EntryPlan, p: int)
    requires p > 0 && EntryWell(entry)
    ensures WorkOf(entry, p).Valid() && WorkOf(entry, p).Words() == entry.shape.ArenaWords()
    ensures Answerable(entry.matrix.matrix, Values(entry.queries), entry.matrix.params.b, entry.shape.blocks)
  {
    var job := AnswerJob(entry.matrix, entry.queries);
    forall q | 0 <= q < |entry.queries| ensures |Values(entry.queries)[q]| == entry.matrix.matrix.columns {
      assert ValidateQuery(job.matrix.matrix.columns, job.matrix.matrix.instanceId, job.queries[q]).Ok?;
    }
    var n, b := entry.matrix.matrix.columns, entry.matrix.params.b;
    assert n == (n / b) * b + n % b;
  }

  /** One way the rows of every entry may be scheduled. */
  datatype Schedules = Schedules(tasks: seq<seq<nat>>)

  ghost predicate Finishes(plan: EnginePlan, schedules: Schedules, p: int) {
    |schedules.tasks| == |plan.entries|
    && forall e | 0 <= e < |plan.entries| :: Complete(WorkOf(plan.entries[e], p), schedules.tasks[e])
  }

  datatype ExecuteResult = Executed | ExecuteFailed(error: EngineError)

  class EngineWorkspace {
    var arena: array<int>
    var rowScratch: seq<seq<int>>

    constructor ()
      ensures arena.Length == 0 && rowScratch == [] && fresh(arena)
    {
      arena := new int[0];
      rowScratch := [];
    }

    /** The only growth point; `refused` stands for the allocator saying no. The
        arena never shrinks and keeps what it held. */
    method Reserve(plan: EnginePlan, refused: bool) returns (r: ExecuteResult)
      modifies `arena
      ensures r.ExecuteFailed? <==> refused && plan.totalWords > old(arena.Length)
      ensures r.ExecuteFailed? ==> arena == old(arena) && r.error == Capacity(plan.totalWords, arena.Length)
      ensures r.Executed? ==> arena.Length == Max(plan.totalWords, old(arena.Length))
      ensures r.Executed? ==> arena[..old(arena.Length)] == old(arena[..])
      ensures arena == old(arena) || fresh(arena)
    {
      var required, available := plan.totalWords, arena.Length;
      if required <= available { return Executed; }
      if refused { return ExecuteFailed(Capacity(required, available)); }
      var contents := arena[..];
      arena := new int[required](i => At(contents, i));
      assert arena[..available] == contents;
      r := Executed;
    }

    /** Fills every entry's own range, one entry at a time in plan order, on the
        tier the plan fixed. Afterwards each range holds its answers, whatever
        the arena and the pooled rows held before. */
    method Execute(plan: EnginePlan, schedules: Schedules, p: int) returns (r: ExecuteResult)
      requires p > 0 && WellPlanned(plan) && Finishes(plan, schedules, p)
      modifies arena, `rowScratch
      ensures r == if arena.Length < plan.totalWords then ExecuteFailed(Capacity(plan.totalWords, arena.Length)) else Executed
      ensures r.ExecuteFailed? ==> arena[..] == old(arena[..]) && rowScratch == old(rowScratch)
      ensures r.Executed? ==> forall e | 0 <= e < |plan.entries| :: RangeHolds(arena[..], plan.entries[e], p)
      ensures |rowScratch| >= |old(rowScratch)|
    {
      hide EntryAnswers, Complete, SameOutside;
      if arena.Length < plan.totalWords { return ExecuteFailed(Capacity(plan.totalWords, arena.Length)); }
      var e := 0;
      while e < |plan.entries|
        invariant 0 <= e <= |plan.entries| && |rowScratch| >= |old(rowScratch)|
        invariant forall f | 0 <= f < e :: RangeHolds(arena[..], plan.entries[f], p)
      {
        var entry := plan.entries[e];
        ghost var before := arena[..];
        EndsBy(plan, e);
        assert Complete(WorkOf(entry, p), schedules.tasks[e]);
        FillEntry(entry, schedules.tasks[e], p);
        forall f | 0 <= f < e ensures RangeHolds(arena[..], plan.entries[f], p) {
          EndsBefore(plan, f, e);
          RangeKept(before, arena[..], plan.entries[f], entry, p);
        }
        e := e + 1;
      }
      r := Executed;
    }

    method FillEntry(entry: EntryPlan, schedule: seq<nat>, p: int)
      requires p > 0 && EntryWell(entry) && Complete(WorkOf(entry, p), schedule) && RangeEnd(entry) <= arena.Length
      modifies arena, `rowScratch
      ensures arena == old(arena) && RangeHolds(arena[..], entry, p)
      ensures SameOutside(old(arena[..]), arena[..], entry.offsetWords, entry.shape.ArenaWords())
      ensures |rowScratch| >= |old(rowScratch)|
    {
      hide BatchOf, Answerable;
      EntryWork(entry, p);
      var inner, queries := entry.matrix, Values(entry.queries);
      match entry.backend
      case SingleCore =>
        var order := SerialOrder(|queries| * inner.matrix.rows);
        FillAnswerBatch(inner.matrix, queries, inner.params.b, entry.shape.blocks, p, arena, entry.offsetWords, order);
      case Rayon =>
        var pool := RunTasks(WorkOf(entry, p), arena, entry.offsetWords, rowScratch, schedule);
        rowScratch := pool;
      assert arena[..][entry.offsetWords..RangeEnd(entry)] == arena[entry.offsetWords..RangeEnd(entry)];
    }
  }

  // ----- Views over the filled arena -----

  datatype AnswerResult = Paired(answer: Answer) | Unpaired(error: ProtocolError)

  /** Pairs one chunk of an entry's range with its query's identifiers. */
  function PairAnswer(range: seq<int>, shape: AnswerShape, queries: seq<EncryptedQuery>, index: nat): AnswerResult
    requires |range| == shape.ArenaWords()
  {
    if |queries| != shape.queries then Unpaired(LengthMismatch(Queries, shape.queries, |queries|))
    else if index >= |queries| then Unpaired(LengthMismatch(Queries, shape.queries, index))
    else if queries[index].instanceId != shape.instanceId then
      Unpaired(InstanceMismatch(shape.instanceId, queries[index].instanceId))
    else
      var words := shape.rows * shape.blocks;
      FlatRoom(index, shape.queries, words);
      ProductOfThree(shape.queries, shape.rows, shape.blocks);
      Paired(Answer(shape.instanceId, queries[index].queryId, shape.rows, shape.blocks,
                    range[index * words..index * words + words]))
  }

  /** Every view over an executed entry is the answer of its own query. */
  lemma ViewsAreAnswers(entry: EntryPlan, index: nat, p: int)
    requires p > 0 && EntryWell(entry) && index < |entry.queries|
    ensures PairAnswer(EntryAnswers(entry, p), entry.shape, entry.queries, index)
            == Paired(Answer(entry.shape.instanceId, entry.queries[index].queryId, entry.shape.rows, entry.shape.blocks,
                             AnswerOf(entry.matrix.matrix, entry.queries[index].values, entry.matrix.params.b, entry.shape.blocks, p)))
  {
    var job := AnswerJob(entry.matrix, entry.queries);
    assert ValidateQuery(job.matrix.matrix.columns, job.matrix.matrix.instanceId, job.queries[index]).Ok?;
    BatchChunk(entry.matrix.matrix, Values(entry.queries), entry.matrix.params.b, entry.shape.blocks, p, index);
  }

  method SerialOrder(n: nat) returns (order: seq<int>)
    ensures Permutes(order, n)
  {
    order := Iota(n);
  }

  ghost predicate RangeHolds(arena: seq<int>, entry: EntryPlan, p: int)
    requires p > 0 && EntryWell(entry)
  {
    RangeEnd(entry) <= |arena| && arena[entry.offsetWords..RangeEnd(entry)] == EntryAnswers(entry, p)
  }

  lemma {:induction false} EndsBefore(plan: EnginePlan, e: nat, f: nat)
    requires WellPlanned(plan) && e < f < |plan.entries|
    ensures RangeEnd(plan.entries[e]) <= plan.entries[f].offsetWords
    decreases f - e
  {
    assert RangeEnd(plan.entries[e]) <= NextStart(plan, e);
    if e + 1 < f { EndsBefore(plan, e + 1, f); }
  }

  lemma {:induction false} EndsBy(plan: EnginePlan, e: nat)
    requires WellPlanned(plan) && e < |plan.entries|
    ensures RangeEnd(plan.entries[e]) <= plan.totalWords
    decreases |plan.entries| - e
  {
    hide EntryWell, RangeEnd;
    assert RangeEnd(plan.entries[e]) <= NextStart(plan, e);
    if e + 1 < |plan.entries| { EndsBy(plan, e + 1); }
  }

  lemma RangeKept(before: seq<int>, after: seq<int>, kept: EntryPlan, written: EntryPlan, p: int)
    requires p > 0 && EntryWell(kept) && RangeHolds(before, kept, p)
    requires SameOutside(before, after, written.offsetWords, written.shape.ArenaWords())
    requires RangeEnd(kept) <= written.offsetWords
    ensures RangeHolds(after, kept, p)
  {
    assert after[kept.offsetWords..RangeEnd(kept)] == before[kept.offsetWords..RangeEnd(kept)];
  }
}
