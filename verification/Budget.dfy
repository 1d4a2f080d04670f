/** The device residency budget under concurrency: compare-and-swap
    reservations, uploads that may fail, handle clones and drops, in every
    interleaving. */
module Budget {
  import opened Arithmetic

  function Total(s: seq<nat>): nat {
    if s == [] then 0 else Total(s[..|s| - 1]) + s[|s| - 1]
  }

  lemma {:induction false} TotalConcat(a: seq<nat>, b: seq<nat>)
    ensures Total(a + b) == Total(a) + Total(b)
  {
    if b == [] {
      assert a + b == a;
    } else {
      var n := |b| - 1;
      TotalConcat(a, b[..n]);
      assert (a + b)[..|a| + n] == a + b[..n];
    }
  }

  lemma {:induction false} TotalUpdate(s: seq<nat>, i: nat, x: nat)
    requires i < |s|
    ensures Total(s[i := x]) + s[i] == Total(s) + x
  {
    var n := |s| - 1;
    if i < n {
      TotalUpdate(s[..n], i, x);
      assert s[i := x][..n] == s[..n][i := x];
    } else {
      assert s[i := x][..n] == s[..n];
    }
  }

  /** Where one caller stands. A batch lists the bytes of its matrices. */
  datatype Caller =
    | Idle
    | Loaded(batch: seq<nat>, current: nat)
    | Uploading(batch: seq<nat>, attached: nat)
    | Aborting(remaining: seq<nat>)
  {
    /** Bytes this caller still owes the counter. */
    function Pending(): nat {
      match this
      case Uploading(batch, _) => Total(batch)
      case Aborting(remaining) => Total(remaining)
      case _ => 0
    }
  }

  /** A retained handle's own reservation; it is live while it has clones. */
  datatype Handle = Handle(bytes: nat, clones: nat) {
    function Live(): nat { if clones > 0 then bytes else 0 }
  }

  /** `lost` counts bytes reserved for matrices whose reservation object was
      never created and so can never be released. */
  datatype State = State(maxBytes: nat, reserved: nat, callers: seq<Caller>, handles: seq<Handle>, lost: nat)

  datatype Op =
    | Load(c: nat, batch: seq<nat>)
    | CompareAndSwap(c: nat, spurious: bool)
    | UploadOne(c: nat)
    | UploadFails(c: nat)
    | ReleaseOne(c: nat)
    | Finish(c: nat)
    | Clone(h: nat)
    | Drop(h: nat)

  function Pendings(callers: seq<Caller>): (p: seq<nat>)
    ensures |p| == |callers|
  {
    seq(|callers|, i requires 0 <= i < |callers| => callers[i].Pending())
  }

  function Lives(handles: seq<Handle>): (l: seq<nat>)
    ensures |l| == |handles|
  {
    seq(|handles|, i requires 0 <= i < |handles| => handles[i].Live())
  }

  /** Bytes of the live handles. */
  function LiveBytes(st: State): nat { Total(Lives(st.handles)) }

  function PendingBytes(st: State): nat { Total(Pendings(st.callers)) }

  function Fresh(batch: seq<nat>): (h: seq<Handle>)
    ensures |h| == |batch|
  {
    seq(|batch|, i requires 0 <= i < |batch| => Handle(batch[i], 1))
  }

  /** One atomic step. A step that is not enabled changes nothing. */
  function Step(st: State, op: Op): State {
    match op
    case Load(c, batch) =>
      if c < |st.callers| && st.callers[c].Idle? then st.(callers := st.callers[c := Loaded(batch, st.reserved)]) else st
    case CompareAndSwap(c, spurious) =>
      if c < |st.callers| && st.callers[c].Loaded? then
        var batch, current := st.callers[c].batch, st.callers[c].current;
        var next := current + Total(batch);
        if next >= TWO64 || next > st.maxBytes then st.(callers := st.callers[c := Idle])
        else if st.reserved == current && !spurious then
          st.(reserved := next, callers := st.callers[c := Uploading(batch, 0)])
        else st.(callers := st.callers[c := Loaded(batch, st.reserved)])
      else st
    case UploadOne(c) =>
      if c < |st.callers| && st.callers[c].Uploading? && st.callers[c].attached < |st.callers[c].batch| then
        st.(callers := st.callers[c := Uploading(st.callers[c].batch, st.callers[c].attached + 1)])
      else st
    case UploadFails(c) =>
      if c < |st.callers| && st.callers[c].Uploading? && st.callers[c].attached < |st.callers[c].batch| then
        var batch, i := st.callers[c].batch, st.callers[c].attached;
        st.(callers := st.callers[c := Aborting(batch[..i + 1])], lost := st.lost + Total(batch[i + 1..]))
      else st
    case ReleaseOne(c) =>
      if c < |st.callers| && st.callers[c].Aborting? then
        var remaining := st.callers[c].remaining;
        if remaining == [] then st.(callers := st.callers[c := Idle])
        else
          var last := |remaining| - 1;
          st.(reserved := if st.reserved >= remaining[last] then st.reserved - remaining[last] else 0,
              callers := st.callers[c := Aborting(remaining[..last])])
      else st
    case Finish(c) =>
      if c < |st.callers| && st.callers[c].Uploading? && st.callers[c].attached == |st.callers[c].batch| then
        st.(handles := st.handles + Fresh(st.callers[c].batch), callers := st.callers[c := Idle])
      else st
    case Clone(h) =>
      if h < |st.handles| && st.handles[h].clones > 0 then
        st.(handles := st.handles[h := Handle(st.handles[h].bytes, st.handles[h].clones + 1)])
      else st
    case Drop(h) =>
      if h < |st.handles| && st.handles[h].clones > 0 then
        var after := Handle(st.handles[h].bytes, st.handles[h].clones - 1);
        st.(handles := st.handles[h := after],
            reserved := if after.clones > 0 then st.reserved
                        else if st.reserved >= after.bytes then st.reserved - after.bytes else 0)
      else st
  }

  /** Every reserved byte is accounted for, and the budget is respected. */
  ghost predicate Accounted(st: State) {
    && st.reserved == LiveBytes(st) + PendingBytes(st) + st.lost
    && st.reserved <= st.maxBytes
  }

  lemma CallerUpdate(callers: seq<Caller>, c: nat, caller: Caller)
    requires c < |callers|
    ensures Total(Pendings(callers[c := caller])) + callers[c].Pending() == Total(Pendings(callers)) + caller.Pending()
  {
    TotalUpdate(Pendings(callers), c, caller.Pending());
    assert Pendings(callers[c := caller]) == Pendings(callers)[c := caller.Pending()];
  }

  lemma HandleUpdate(handles: seq<Handle>, h: nat, handle: Handle)
    requires h < |handles|
    ensures Total(Lives(handles[h := handle])) + handles[h].Live() == Total(Lives(handles)) + handle.Live()
  {
    TotalUpdate(Lives(handles), h, handle.Live());
    assert Lives(handles[h := handle]) == Lives(handles)[h := handle.Live()];
  }

  lemma {:induction false} FreshHandles(handles: seq<Handle>, batch: seq<nat>)
    ensures Total(Lives(handles + Fresh(batch))) == Total(Lives(handles)) + Total(batch)
  {
    assert Lives(handles + Fresh(batch)) == Lives(handles) + batch;
    TotalConcat(Lives(handles), batch);
  }

  lemma HandleStepKeepsAccount(st: State, op: Op)
    requires Accounted(st) && (op.Clone? || op.Drop?)
    ensures Accounted(Step(st, op)) && Step(st, op).maxBytes == st.maxBytes
  {
    if op.h < |st.handles| && st.handles[op.h].clones > 0 {
      hide Total, Lives, Pendings;
      HandleUpdate(st.handles, op.h, Step(st, op).handles[op.h]);
    }
  }

  lemma CounterStepKeepsAccount(st: State, op: Op)
    requires Accounted(st) && (op.Load? || op.CompareAndSwap? || op.ReleaseOne?)
    ensures Accounted(Step(st, op)) && Step(st, op).maxBytes == st.maxBytes
  {
    if op.c < |st.callers| {
      hide Lives, Pendings;
      CallerStep(st, Step(st, op), op.c);
    }
  }

  lemma UploadStepKeepsAccount(st: State, op: Op)
    requires Accounted(st) && (op.UploadOne? || op.UploadFails? || op.Finish?)
    ensures Accounted(Step(st, op)) && Step(st, op).maxBytes == st.maxBytes
  {
    hide Lives, Pendings, Total;
    if op.c < |st.callers| && st.callers[op.c].Uploading? {
      var batch := st.callers[op.c].batch;
      CallerStep(st, Step(st, op), op.c);
      if st.callers[op.c].attached < |batch| { AbortSplits(batch, st.callers[op.c].attached); }
      FreshHandles(st.handles, batch);
    }
  }

  /** One step keeps the account, whoever takes it. */
  lemma StepKeepsAccount(st: State, op: Op)
    requires Accounted(st)
    ensures Accounted(Step(st, op)) && Step(st, op).maxBytes == st.maxBytes
  {
    if op.Clone? || op.Drop? {
      HandleStepKeepsAccount(st, op);
    } else if op.Load? || op.CompareAndSwap? || op.ReleaseOne? {
      CounterStepKeepsAccount(st, op);
    } else {
      UploadStepKeepsAccount(st, op);
    }
  }

  lemma CallerStep(st: State, next: State, c: nat)
    requires c < |st.callers| && |next.callers| == |st.callers| && next.callers == st.callers[c := next.callers[c]]
    ensures PendingBytes(next) + st.callers[c].Pending() == PendingBytes(st) + next.callers[c].Pending()
  {
    CallerUpdate(st.callers, c, next.callers[c]);
  }

  lemma {:induction false} AbortSplits(batch: seq<nat>, i: nat)
    requires i < |batch|
    ensures Total(batch) == Total(batch[..i + 1]) + Total(batch[i + 1..])
  {
    assert batch == batch[..i + 1] + batch[i + 1..];
    TotalConcat(batch[..i + 1], batch[i + 1..]);
  }

  function Run(st: State, ops: seq<Op>): State
    decreases |ops|
  {
    if ops == [] then st else Run(Step(st, ops[0]), ops[1..])
  }

  ghost predicate Initial(st: State) {
    st.reserved == 0 && st.handles == [] && st.lost == 0 && forall c | 0 <= c < |st.callers| :: st.callers[c].Idle?
  }

  lemma {:induction false} TotalZero(s: seq<nat>)
    requires forall i | 0 <= i < |s| :: s[i] == 0
    ensures Total(s) == 0
  {
    if s != [] { TotalZero(s[..|s| - 1]); }
  }

  lemma {:induction false} RunKeepsAccount(st: State, ops: seq<Op>)
    requires Accounted(st)
    ensures Accounted(Run(st, ops)) && Run(st, ops).maxBytes == st.maxBytes
    decreases |ops|
  {
    if ops != [] {
      StepKeepsAccount(st, ops[0]);
      RunKeepsAccount(Step(st, ops[0]), ops[1..]);
    }
  }

  /** In every interleaving the counter stays within the budget and covers the
      live handles; once every caller is idle and no upload has failed part-way,
      it is exactly their bytes. */
  lemma {:induction false} BudgetSafety(st: State, ops: seq<Op>)
    requires Initial(st)
    ensures var end := Run(st, ops);
            && LiveBytes(end) <= end.reserved <= st.maxBytes
            && ((forall c | 0 <= c < |end.callers| :: end.callers[c].Idle?) ==> end.reserved == LiveBytes(end) + end.lost)
  {
    TotalZero(Pendings(st.callers));
    RunKeepsAccount(st, ops);
    var end := Run(st, ops);
    if forall c | 0 <= c < |end.callers| :: end.callers[c].Idle? { TotalZero(Pendings(end.callers)); }
  }

  /** Bytes are lost only by a failing upload. */
  lemma {:induction false} OnlyFailuresLose(st: State, ops: seq<Op>)
    requires forall i | 0 <= i < |ops| :: !ops[i].UploadFails?
    ensures Run(st, ops).lost == st.lost
    decreases |ops|
  {
    if ops != [] {
      assert forall i | 0 <= i < |ops[1..]| :: ops[1..][i] == ops[i + 1];
      OnlyFailuresLose(Step(st, ops[0]), ops[1..]);
    }
  }

  // ----- What one reservation attempt does -----

  /** The request still fits when the counter stands at `seen`. */
  predicate FitsAt(maxBytes: nat, seen: nat, batch: seq<nat>) {
    seen + Total(batch) <= maxBytes && seen + Total(batch) < TWO64
  }

  /** An exchange refuses exactly when the value it loaded leaves no room; it
      reserves the whole request exactly when that value still stands; and
      otherwise it retries with the value just observed. Nobody else is touched. */
  lemma ExchangeOutcome(st: State, c: nat, spurious: bool)
    requires c < |st.callers| && st.callers[c].Loaded?
    ensures var me, next := st.callers[c], Step(st, CompareAndSwap(c, spurious));
            && (next.callers[c].Idle? <==> !FitsAt(st.maxBytes, me.current, me.batch))
            && (next.callers[c].Uploading? <==> FitsAt(st.maxBytes, me.current, me.batch) && st.reserved == me.current && !spurious)
            && (next.callers[c].Uploading? ==>
                  next.callers[c] == Uploading(me.batch, 0) && next.reserved == st.reserved + Total(me.batch))
            && (!next.callers[c].Uploading? ==> next.reserved == st.reserved)
            && (!next.callers[c].Idle? && !next.callers[c].Uploading? ==> next.callers[c] == Loaded(me.batch, st.reserved))
            && next == st.(callers := st.callers[c := next.callers[c]], reserved := next.reserved)
  {
  }

  /** Two undisturbed attempts decide a reservation: it succeeds exactly when the
      request fits both the value loaded first and the value standing now. */
  lemma ReservesInTwo(st: State, c: nat)
    requires c < |st.callers| && st.callers[c].Loaded?
    ensures var me := st.callers[c];
            Step(Step(st, CompareAndSwap(c, false)), CompareAndSwap(c, false)).callers[c].Uploading?
            <==> FitsAt(st.maxBytes, me.current, me.batch) && FitsAt(st.maxBytes, st.reserved, me.batch)
  {
    hide Total;
    ExchangeOutcome(st, c, false);
    var once := Step(st, CompareAndSwap(c, false));
    if once.callers[c].Loaded? { ExchangeOutcome(once, c, false); }
  }

  /** Fitting now is not enough: a caller that loaded a counter with no room for
      it is refused even when a handle dropped since has made the room. */
  lemma RefusedOnAStaleValue(st: State, c: nat, h: nat, batch: seq<nat>)
    requires c < |st.callers| && st.callers[c].Idle? && !FitsAt(st.maxBytes, st.reserved, batch)
    requires h < |st.handles| && st.handles[h].clones == 1 && st.reserved >= st.handles[h].bytes
    requires FitsAt(st.maxBytes, st.reserved - st.handles[h].bytes, batch)
    ensures var dropped := Step(Step(st, Load(c, batch)), Drop(h));
            && dropped.callers[c].Loaded? && FitsAt(st.maxBytes, dropped.reserved, batch)
            && Step(dropped, CompareAndSwap(c, false)).callers[c].Idle?
  {
    hide Total;
    ExchangeOutcome(Step(Step(st, Load(c, batch)), Drop(h)), c, false);
  }

  /** For instance four bytes against a full budget of eight, all of it one handle's:
      at the end nothing is reserved, and yet the caller has been refused. */
  lemma StaleExample()
    ensures var st := State(8, 8, [Idle], [Handle(8, 1)], 0);
            Accounted(st) && Run(st, [Load(0, [4]), Drop(0), CompareAndSwap(0, false)]) == State(8, 0, [Idle], [Handle(8, 0)], 0)
  {
    var st := State(8, 8, [Idle], [Handle(8, 1)], 0);
    var batch: seq<nat> := [4];
    TotalOne(4);
    TotalOne(8);
    TotalOne(0);
    assert Lives(st.handles) == [8] && Pendings(st.callers) == [0];
    var ops := [Load(0, batch), Drop(0), CompareAndSwap(0, false)];
    assert ops[1..] == [Drop(0), CompareAndSwap(0, false)];
    TwoSteps(Step(st, Load(0, batch)), Drop(0), CompareAndSwap(0, false));
  }

  lemma TotalOne(x: nat)
    ensures Total([x]) == x
  {
    assert [x][..0] == [];
  }

  lemma {:induction false} RunConcat(st: State, a: seq<Op>, b: seq<Op>)
    ensures Run(st, a + b) == Run(Run(st, a), b)
    decreases |a|
  {
    if a == [] {
      assert a + b == b;
    } else {
      RunConcat(Step(st, a[0]), a[1..], b);
      assert (a + b)[1..] == a[1..] + b;
    }
  }

  lemma {:induction false} OneStep(st: State, op: Op)
    ensures Run(st, [op]) == Step(st, op)
  {
    assert [op][1..] == [];
  }

  lemma {:induction false} TwoSteps(st: State, first: Op, second: Op)
    ensures Run(st, [first, second]) == Step(Step(st, first), second)
  {
    OneStep(Step(st, first), second);
    assert [first, second][1..] == [second];
  }

  function Repeat(op: Op, n: nat): seq<Op> { if n == 0 then [] else [op] + Repeat(op, n - 1) }

  lemma {:induction false} UploadsAttach(st: State, c: nat, n: nat)
    requires c < |st.callers| && st.callers[c].Uploading? && st.callers[c].attached + n <= |st.callers[c].batch|
    ensures Run(st, Repeat(UploadOne(c), n))
            == st.(callers := st.callers[c := Uploading(st.callers[c].batch, st.callers[c].attached + n)])
    decreases n
  {
    if n > 0 {
      assert Repeat(UploadOne(c), n)[1..] == Repeat(UploadOne(c), n - 1);
      UploadsAttach(Step(st, UploadOne(c)), c, n - 1);
    }
  }

  /** One caller's whole successful batch, undisturbed. */
  function BatchOps(c: nat, batch: seq<nat>): seq<Op> {
    [Load(c, batch), CompareAndSwap(c, false)] + Repeat(UploadOne(c), |batch|) + [Finish(c)]
  }

  /** A batch that fits and uploads ends with the caller idle, one live handle per
      matrix, and exactly the batch's bytes more on the counter. */
  lemma {:induction false} WholeBatch(st: State, c: nat, batch: seq<nat>)
    requires c < |st.callers| && st.callers[c].Idle? && FitsAt(st.maxBytes, st.reserved, batch)
    ensures Run(st, BatchOps(c, batch)) == st.(reserved := st.reserved + Total(batch), handles := st.handles + Fresh(batch))
  {
    hide Total;
    var start, uploads, finish := [Load(c, batch), CompareAndSwap(c, false)], Repeat(UploadOne(c), |batch|), [Finish(c)];
    RunConcat(st, start + uploads, finish);
    RunConcat(st, start, uploads);
    var loaded := Step(st, Load(c, batch));
    var reserved := Step(loaded, CompareAndSwap(c, false));
    TwoSteps(st, Load(c, batch), CompareAndSwap(c, false));
    ExchangeOutcome(loaded, c, false);
    UploadsAttach(reserved, c, |batch|);
    var attached := Run(reserved, uploads);
    OneStep(attached, Finish(c));
    assert Step(attached, Finish(c)).callers == st.callers;
  }

  // ----- What dropping handles returns -----

  /** Only the last clone returns anything, and it returns exactly its handle's
      bytes; a clone and its drop cancel out. */
  lemma DropReturns(st: State, h: nat)
    requires Accounted(st) && h < |st.handles| && st.handles[h].clones > 0
    ensures var handle, next := st.handles[h], Step(st, Drop(h));
            && next == st.(handles := st.handles[h := Handle(handle.bytes, handle.clones - 1)], reserved := next.reserved)
            && next.reserved == st.reserved - (if handle.clones == 1 then handle.bytes else 0)
    ensures Step(Step(st, Clone(h)), Drop(h)) == st
  {
    hide Total;
    HandleUpdate(st.handles, h, Handle(st.handles[h].bytes, 0));
    var cloned := Step(st, Clone(h));
    assert cloned.handles[h := st.handles[h]] == st.handles;
  }

  lemma {:induction false} DropsOfOne(st: State, h: nat, n: nat)
    requires Accounted(st) && h < |st.handles| && st.handles[h].clones == n
    ensures var end := Run(st, Repeat(Drop(h), n));
            && Accounted(end) && end == st.(handles := st.handles[h := Handle(st.handles[h].bytes, 0)], reserved := end.reserved)
    decreases n
  {
    if n > 0 {
      assert Repeat(Drop(h), n)[1..] == Repeat(Drop(h), n - 1);
      DropReturns(st, h);
      StepKeepsAccount(st, Drop(h));
      DropsOfOne(Step(st, Drop(h)), h, n - 1);
    } else {
      assert st.handles[h := Handle(st.handles[h].bytes, 0)] == st.handles;
    }
  }

  /** Every clone of the first `n` handles is dropped. */
  function DropsOf(handles: seq<Handle>, n: nat): seq<Op>
    requires n <= |handles|
  {
    if n == 0 then [] else DropsOf(handles, n - 1) + Repeat(Drop(n - 1), handles[n - 1].clones)
  }

  lemma {:induction false} DropsOfAll(st: State, n: nat)
    requires Accounted(st) && n <= |st.handles|
    ensures var end := Run(st, DropsOf(st.handles, n));
            && Accounted(end) && |end.handles| == |st.handles| && end.callers == st.callers && end.lost == st.lost
            && (forall h | 0 <= h < n :: end.handles[h].clones == 0)
            && (forall h | n <= h < |st.handles| :: end.handles[h] == st.handles[h])
  {
    hide Accounted, Step;
    if n > 0 {
      var before := Run(st, DropsOf(st.handles, n - 1));
      DropsOfAll(st, n - 1);
      RunConcat(st, DropsOf(st.handles, n - 1), Repeat(Drop(n - 1), st.handles[n - 1].clones));
      DropsOfOne(before, n - 1, st.handles[n - 1].clones);
    }
  }

  /** After any run, once every caller is idle, dropping every clone returns
      everything but the lost bytes; with no failed upload, everything. */
  lemma {:induction false} DroppingAllReturnsAll(st: State, ops: seq<Op>)
    requires Initial(st) && forall c | 0 <= c < |Run(st, ops).callers| :: Run(st, ops).callers[c].Idle?
    ensures var end := Run(st, ops);
            && Run(end, DropsOf(end.handles, |end.handles|)).reserved == end.lost
            && ((forall i | 0 <= i < |ops| :: !ops[i].UploadFails?) ==> end.lost == 0)
  {
    TotalZero(Pendings(st.callers));
    RunKeepsAccount(st, ops);
    var end := Run(st, ops);
    DropsOfAll(end, |end.handles|);
    var dropped := Run(end, DropsOf(end.handles, |end.handles|));
    TotalZero(Pendings(dropped.callers));
    TotalZero(Lives(dropped.handles));
    if forall i | 0 <= i < |ops| :: !ops[i].UploadFails? { OnlyFailuresLose(st, ops); }
  }

  // ----- What an abort releases -----

  /** A batch reserved whole that fails at `i`: the releases of one caller, run to
      the end. */
  ghost function Abort(st: State, c: nat): State
    requires c < |st.callers| && st.callers[c].Aborting?
    decreases |st.callers[c].remaining|
  {
    if st.callers[c].remaining == [] then Step(st, ReleaseOne(c)) else Abort(Step(st, ReleaseOne(c)), c)
  }

  lemma {:induction false} AbortReleases(st: State, c: nat)
    requires c < |st.callers| && st.callers[c].Aborting? && st.reserved >= Total(st.callers[c].remaining)
    ensures Abort(st, c).reserved == st.reserved - Total(st.callers[c].remaining)
    ensures Abort(st, c).lost == st.lost && Abort(st, c).callers == st.callers[c := Idle]
    decreases |st.callers[c].remaining|
  {
    if st.callers[c].remaining != [] {
      AbortReleases(Step(st, ReleaseOne(c)), c);
    }
  }

  lemma {:induction false} TotalPositive(s: seq<nat>)
    requires forall i | 0 <= i < |s| :: s[i] > 0
    ensures Total(s) == 0 <==> s == []
  {
  }

  /** A failure at matrix `i` gives back the bytes of matrices `0 ..= i` and keeps
      those after it: the whole reservation is released exactly when the failing
      matrix is the last one. */
  lemma {:induction false} FullReleaseIffLast(st: State, c: nat)
    requires Accounted(st) && c < |st.callers| && st.callers[c].Uploading?
    requires st.callers[c].attached < |st.callers[c].batch|
    requires forall i | 0 <= i < |st.callers[c].batch| :: st.callers[c].batch[i] > 0
    ensures var batch, i := st.callers[c].batch, st.callers[c].attached;
            var end := Abort(Step(st, UploadFails(c)), c);
            && end.reserved == st.reserved - Total(batch[..i + 1])
            && end.lost == st.lost + Total(batch[i + 1..])
            && (end.reserved == st.reserved - Total(batch) <==> i == |batch| - 1)
  {
    var batch, i := st.callers[c].batch, st.callers[c].attached;
    var failed := Step(st, UploadFails(c));
    AbortSplits(batch, i);
    StepKeepsAccount(st, UploadFails(c));
    CallerIsPending(failed, c);
    AbortReleases(failed, c);
    TotalPositive(batch[i + 1..]);
  }

  lemma CallerIsPending(st: State, c: nat)
    requires c < |st.callers|
    ensures PendingBytes(st) >= st.callers[c].Pending()
  {
    CallerUpdate(st.callers, c, Idle);
  }

  /** Two matrices of four bytes, the first upload fails: nothing is live and
      nobody is uploading, yet four bytes stay reserved for good. */
  lemma FirstOfTwoFailing()
    ensures var st := State(8, 0, [Idle], [], 0);
            var end := Run(st, [Load(0, [4, 4]), CompareAndSwap(0, false), UploadFails(0), ReleaseOne(0), ReleaseOne(0)]);
            end.callers == [Idle] && LiveBytes(end) == 0 && end.reserved == 4
  {
    var st := State(8, 0, [Idle], [], 0);
    var batch: seq<nat> := [4, 4];
    assert batch[..1] == [4] && batch[1..] == [4] && Total([4]) == 4 by { assert [4][..0] == []; }
    assert Total(batch) == 8;
    var loaded := Step(st, Load(0, batch));
    var uploading := Step(loaded, CompareAndSwap(0, false));
    var failed := Step(uploading, UploadFails(0));
    var released := Step(failed, ReleaseOne(0));
    var end := Step(released, ReleaseOne(0));
    var ops := [Load(0, batch), CompareAndSwap(0, false), UploadFails(0), ReleaseOne(0), ReleaseOne(0)];
    assert ops[1..] == [CompareAndSwap(0, false), UploadFails(0), ReleaseOne(0), ReleaseOne(0)];
    assert ops[1..][1..] == [UploadFails(0), ReleaseOne(0), ReleaseOne(0)];
    assert ops[1..][1..][1..] == [ReleaseOne(0), ReleaseOne(0)];
    assert ops[1..][1..][1..][1..] == [ReleaseOne(0)];
    assert Run(loaded, ops[1..]) == Run(uploading, ops[1..][1..]);
    assert Run(failed, ops[1..][1..][1..]) == Run(released, [ReleaseOne(0)]) == Run(end, []);
    assert Lives(end.handles) == [];
  }
}
