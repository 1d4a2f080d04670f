/** Retaining matrices: the direct batch path, and the plan, reserve, copy,
    commit path that stages borrowed views in engine-owned slots. */
module Upload {
  import opened Answering
  import opened Arithmetic
  import opened Engine
  import opened ParameterSets
  import opened ProtocolSpec

  datatype UploadRef = UploadRef(params: EmvpParams, matrix: EncryptedMatrix)

  datatype PrepareEntry = PrepareEntry(params: EmvpParams, instanceId: nat, rows: nat, columns: nat, words: nat)

  datatype PreparePlan = PreparePlan(entries: seq<PrepareEntry>, totalWords: nat)

  datatype PrepareError =
    | Empty
    | ProtocolAt(index: nat, source: ProtocolError)
    | PlanMismatch(at: nat)
    | SlotCapacity(required: nat, available: nat)

  datatype PlanPrepareResult = Prepares(plan: PreparePlan) | PrepareRejected(error: PrepareError)

  datatype PrepareResult = Prepared(handles: seq<PreparedMatrix>) | PrepareFailed(failure: PrepareError)

  datatype StepResult = Done | StepFailed(error: PrepareError)

  // ----- What a servable upload set is -----

  predicate Servable(upload: UploadRef) { ValidateMatrixShape(upload.params, upload.matrix).Shaped? }

  ghost predicate ServableUpTo(uploads: seq<UploadRef>, i: nat) {
    i <= |uploads| && forall j | 0 <= j < i :: Servable(uploads[j])
  }

  /** Field words of the first `i` uploads. */
  function Words(uploads: seq<UploadRef>, i: nat): nat
    requires i <= |uploads|
  {
    if i == 0 then 0 else Words(uploads, i - 1) + |uploads[i - 1].matrix.values|
  }

  lemma {:induction false} WordsGrow(uploads: seq<UploadRef>, i: nat, j: nat)
    requires i <= j <= |uploads|
    ensures Words(uploads, i) <= Words(uploads, j)
  {
    if i < j { WordsGrow(uploads, i, j - 1); }
  }

  function EntryOf(upload: UploadRef): PrepareEntry {
    PrepareEntry(upload.params, upload.matrix.instanceId, upload.matrix.rows, upload.matrix.columns, |upload.matrix.values|)
  }

  ghost predicate PlanOf(plan: PreparePlan, uploads: seq<UploadRef>) {
    && |plan.entries| == |uploads|
    && (forall i | 0 <= i < |uploads| :: plan.entries[i] == EntryOf(uploads[i]))
    && plan.totalWords == Words(uploads, |uploads|)
  }

  ghost predicate HandlesOf(handles: seq<PreparedMatrix>, uploads: seq<UploadRef>, engineId: nat, firstId: nat) {
    && |handles| == |uploads|
    && forall i | 0 <= i < |uploads| ::
         handles[i] == PreparedMatrix(firstId + i, engineId, uploads[i].params, uploads[i].matrix)
  }

  /** Why a set was refused: it is empty, or the named upload is the first that
      cannot be served or whose words, counted in `unit`s, overflow the total. */
  ghost predicate Explains(uploads: seq<UploadRef>, failure: PrepareError, unit: nat) {
    match failure
    case Empty => uploads == []
    case ProtocolAt(i, source) =>
      && i < |uploads| && ServableUpTo(uploads, i)
      && var shape := ValidateMatrixShape(uploads[i].params, uploads[i].matrix);
         if shape.Misshapen? then source == shape.error else source == Overflow && unit * Words(uploads, i + 1) >= TWO64
    case _ => false
  }

  // ----- The direct batch -----

  /** Retains a set whole: every matrix is validated and the residency totalled
      before the first handle exists. */
  method PrepareBatch(engineId: nat, firstId: nat, uploads: seq<UploadRef>) returns (r: PrepareResult)
    ensures r.Prepared? <==> uploads != [] && ServableUpTo(uploads, |uploads|) && 4 * Words(uploads, |uploads|) < TWO64
    ensures r.Prepared? ==> HandlesOf(r.handles, uploads, engineId, firstId)
    ensures r.PrepareFailed? ==> Explains(uploads, r.failure, 4)
  {
    if uploads == [] { return PrepareFailed(Empty); }
    var totalBytes, index := 0, 0;
    while index < |uploads|
      invariant ServableUpTo(uploads, index) && totalBytes == 4 * Words(uploads, index) < TWO64
    {
      var upload := uploads[index];
      var shape := ValidateMatrixShape(upload.params, upload.matrix);
      if shape.Misshapen? {
        assert !Servable(uploads[index]);
        return PrepareFailed(ProtocolAt(index, shape.error));
      }
      WordsGrow(uploads, index + 1, |uploads|);
      var bytes := 4 * |upload.matrix.values|;
      if bytes >= TWO64 || totalBytes + bytes >= TWO64 { return PrepareFailed(ProtocolAt(index, Overflow)); }
      totalBytes := totalBytes + bytes;
      index := index + 1;
    }
    var handles: seq<PreparedMatrix> := [];
    index := 0;
    while index < |uploads|
      invariant 0 <= index <= |uploads| && |handles| == index
      invariant forall i | 0 <= i < index ::
                  handles[i] == PreparedMatrix(firstId + i, engineId, uploads[i].params, uploads[i].matrix)
    {
      handles := handles + [PreparedMatrix(firstId + index, engineId, uploads[index].params, uploads[index].matrix)];
      index := index + 1;
    }
    r := Prepared(handles);
  }

  // ----- Plan, reserve, copy, commit -----

  method PlanPrepare(uploads: seq<UploadRef>) returns (r: PlanPrepareResult)
    ensures r.Prepares? <==> uploads != [] && ServableUpTo(uploads, |uploads|) && Words(uploads, |uploads|) < TWO64
    ensures r.Prepares? ==> PlanOf(r.plan, uploads)
    ensures r.PrepareRejected? ==> Explains(uploads, r.error, 1)
  {
    var entries: seq<PrepareEntry> := [];
    var totalWords, index := 0, 0;
    while index < |uploads|
      invariant ServableUpTo(uploads, index) && totalWords == Words(uploads, index) < TWO64
      invariant |entries| == index && forall i | 0 <= i < index :: entries[i] == EntryOf(uploads[i])
    {
      var upload := uploads[index];
      var shape := ValidateMatrixShape(upload.params, upload.matrix);
      if shape.Misshapen? {
        assert !Servable(uploads[index]);
        return PrepareRejected(ProtocolAt(index, shape.error));
      }
      WordsGrow(uploads, index + 1, |uploads|);
      var words := |upload.matrix.values|;
      if totalWords + words >= TWO64 { return PrepareRejected(ProtocolAt(index, Overflow)); }
      totalWords := totalWords + words;
      entries := entries + [EntryOf(upload)];
      index := index + 1;
    }
    if entries == [] { return PrepareRejected(Empty); }
    r := Prepares(PreparePlan(entries, totalWords));
  }

  function ZeroResize(slot: seq<int>, words: nat): (s: seq<int>)
    ensures |s| == words
  {
    if words <= |slot| then slot[..words] else slot + seq(words - |slot|, i => 0)
  }

  function CapacityWords(capacities: seq<nat>): nat {
    if capacities == [] then 0 else CapacityWords(capacities[..|capacities| - 1]) + capacities[|capacities| - 1]
  }

  ghost predicate SlotsFit(slots: seq<seq<int>>, entries: seq<PrepareEntry>, upTo: nat) {
    upTo <= |entries| && upTo <= |slots| && forall i | 0 <= i < upTo :: |slots[i]| == entries[i].words
  }

  /** One staging slot per planned matrix, each with the capacity it keeps. */
  class PrepareWorkspace {
    var slots: seq<seq<int>>
    var capacities: seq<nat>

    ghost predicate Valid()
      reads this
    {
      |capacities| == |slots| && forall i | 0 <= i < |slots| :: |slots[i]| <= capacities[i]
    }

    constructor ()
      ensures Valid() && slots == []
    {
      slots, capacities := [], [];
    }

    /** Pins every planned slot to its entry's length. Capacity never shrinks;
        the allocator may refuse the growth of entry `refuseAt`. */
    method Reserve(plan: PreparePlan, refuseAt: nat) returns (r: StepResult)
      requires Valid()
      modifies this
      ensures Valid()
      ensures r.Done? ==> SlotsFit(slots, plan.entries, |plan.entries|)
      ensures r.StepFailed? ==> r.error.SlotCapacity? && refuseAt < |plan.entries|
                                && r.error.required == plan.entries[refuseAt].words
      ensures |slots| >= |old(slots)| && forall i | 0 <= i < |old(slots)| :: capacities[i] >= old(capacities[i])
      ensures forall i | |plan.entries| <= i < |old(slots)| :: slots[i] == old(slots[i])
    {
      var index := 0;
      while index < |plan.entries|
        invariant 0 <= index <= |plan.entries| && Valid() && SlotsFit(slots, plan.entries, index)
        invariant |slots| >= |old(slots)| && forall i | 0 <= i < |old(slots)| :: capacities[i] >= old(capacities[i])
        invariant forall i | index <= i < |old(slots)| :: slots[i] == old(slots[i])
      {
        var words := plan.entries[index].words;
        if index >= |slots| {
          if index == refuseAt { return StepFailed(SlotCapacity(words, CapacityWords(capacities))); }
          slots, capacities := slots + [[]], capacities + [0];
        }
        if capacities[index] < words {
          if index == refuseAt { return StepFailed(SlotCapacity(words, capacities[index])); }
          capacities := capacities[index := words];
        }
        slots := slots[index := ZeroResize(slots[index], words)];
        index := index + 1;
      }
      r := Done;
    }

    /** Checks everything before writing anything, then overwrites each slot once. */
    method Copy(plan: PreparePlan, uploads: seq<UploadRef>) returns (r: StepResult)
      requires Valid()
      modifies `slots
      ensures Valid() && |slots| == |old(slots)|
      ensures r.Done? <==> Pairs(plan, uploads) && SlotsFit(old(slots), plan.entries, |plan.entries|)
      ensures r.StepFailed? ==> slots == old(slots)
      ensures r.Done? ==> forall i | 0 <= i < |uploads| :: slots[i] == uploads[i].matrix.values
      ensures r.Done? ==> forall i | |uploads| <= i < |slots| :: slots[i] == old(slots[i])
    {
      if |uploads| != |plan.entries| { return StepFailed(PlanMismatch(Min(|uploads|, |plan.entries|))); }
      if |slots| < |plan.entries| { return StepFailed(PlanMismatch(|slots|)); }
      var index := 0;
      while index < |plan.entries|
        invariant 0 <= index <= |plan.entries| && SlotsFit(slots, plan.entries, index)
        invariant forall i | 0 <= i < index :: plan.entries[i] == EntryOf(uploads[i])
      {
        if plan.entries[index] != EntryOf(uploads[index]) { return StepFailed(PlanMismatch(index)); }
        if |slots[index]| != plan.entries[index].words {
          return StepFailed(SlotCapacity(plan.entries[index].words, |slots[index]|));
        }
        index := index + 1;
      }
      index := 0;
      while index < |plan.entries|
        invariant 0 <= index <= |plan.entries| && |slots| == |old(slots)|
        invariant forall i | 0 <= i < index :: slots[i] == uploads[i].matrix.values
        invariant forall i | index <= i < |slots| :: slots[i] == old(slots[i])
      {
        slots := slots[index := uploads[index].matrix.values];
        index := index + 1;
      }
      r := Done;
    }
  }

  ghost predicate Pairs(plan: PreparePlan, uploads: seq<UploadRef>) {
    |uploads| == |plan.entries| && forall i | 0 <= i < |uploads| :: plan.entries[i] == EntryOf(uploads[i])
  }

  /** The set a staged plan commits to. */
  function Committed(plan: PreparePlan, slots: seq<seq<int>>): (uploads: seq<UploadRef>)
    requires |plan.entries| <= |slots|
  {
    seq(|plan.entries|, i requires 0 <= i < |plan.entries| =>
      var e := plan.entries[i];
      UploadRef(e.params, EncryptedMatrix(e.instanceId, e.rows, e.columns, slots[i])))
  }

  ghost predicate ExplainsCommit(plan: PreparePlan, slots: seq<seq<int>>, failure: PrepareError) {
    match failure
    case Empty => plan.entries == []
    case SlotCapacity(_, _) => !SlotsFit(slots, plan.entries, |plan.entries|)
    case PlanMismatch(_) => |slots| < |plan.entries|
    case ProtocolAt(_, _) => |plan.entries| <= |slots| && Explains(Committed(plan, slots), failure, 4)
  }

  /** Moves each slot into its matrix and retains the set. */
  method PrepareCommitted(engineId: nat, firstId: nat, plan: PreparePlan, slots: seq<seq<int>>) returns (r: PrepareResult)
    ensures r.Prepared? <==>
              && plan.entries != [] && SlotsFit(slots, plan.entries, |plan.entries|)
              && ServableUpTo(Committed(plan, slots), |plan.entries|)
              && 4 * Words(Committed(plan, slots), |plan.entries|) < TWO64
    ensures r.Prepared? ==> HandlesOf(r.handles, Committed(plan, slots), engineId, firstId)
    ensures r.PrepareFailed? ==> ExplainsCommit(plan, slots, r.failure)
  {
    if plan.entries == [] { return PrepareFailed(Empty); }
    var index := 0;
    while index < |plan.entries| && index < |slots|
      invariant 0 <= index <= |plan.entries| && SlotsFit(slots, plan.entries, index)
    {
      if |slots[index]| != plan.entries[index].words {
        return PrepareFailed(SlotCapacity(plan.entries[index].words, |slots[index]|));
      }
      index := index + 1;
    }
    if index != |plan.entries| { return PrepareFailed(PlanMismatch(index)); }
    r := PrepareBatch(engineId, firstId, Committed(plan, slots));
  }

  lemma CopiedIsCommitted(plan: PreparePlan, uploads: seq<UploadRef>, slots: seq<seq<int>>)
    requires Pairs(plan, uploads) && |uploads| <= |slots|
    requires forall i | 0 <= i < |uploads| :: slots[i] == uploads[i].matrix.values
    ensures SlotsFit(slots, plan.entries, |plan.entries|) && Committed(plan, slots) == uploads
  {
  }

  /** The whole staged path, on a workspace with any history: unless the
      allocator refuses, it is the direct batch. */
  method StagedUpload(engineId: nat, firstId: nat, uploads: seq<UploadRef>, workspace: PrepareWorkspace, refuseAt: nat)
    returns (r: PrepareResult)
    requires workspace.Valid()
    modifies workspace
    ensures workspace.Valid()
    ensures r.Prepared? ==> HandlesOf(r.handles, uploads, engineId, firstId)
    ensures r.Prepared? ==> uploads != [] && ServableUpTo(uploads, |uploads|) && 4 * Words(uploads, |uploads|) < TWO64
    ensures r.PrepareFailed? && uploads != [] && ServableUpTo(uploads, |uploads|) && 4 * Words(uploads, |uploads|) < TWO64
            ==> r.failure.SlotCapacity? && refuseAt < |uploads|
  {
    var planned := PlanPrepare(uploads);
    if planned.PrepareRejected? { return PrepareFailed(planned.error); }
    var step := workspace.Reserve(planned.plan, refuseAt);
    if step.StepFailed? { return PrepareFailed(step.error); }
    step := workspace.Copy(planned.plan, uploads);
    if step.StepFailed? { assert false; }
    CopiedIsCommitted(planned.plan, uploads, workspace.slots);
    r := PrepareCommitted(engineId, firstId, planned.plan, workspace.slots);
  }
}
