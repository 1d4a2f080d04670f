/** The parallel answer tier as a step system: every flat row is a task that
    leases a staging row from the shared pool, fills it, copies it into its own
    arena chunk, and returns it. Workers interleave arbitrarily. */
module ParallelTier {
  import opened Answering
  import opened Arithmetic
  import opened Encryption
  import opened Grids
  import opened ProtocolSpec
  import opened Sums

  /** Where one row task stands, with the staging row it holds. */
  datatype Task = Waiting | Leased(row: seq<int>) | Filled(row: seq<int>) | Copied(row: seq<int>) | Finished {
    function Progress(): nat {
      match this
      case Waiting => 0
      case Leased(_) => 1
      case Filled(_) => 2
      case Copied(_) => 3
      case Finished => 4
    }

    predicate Holding() { Leased? || Filled? || Copied? }
  }

  /** The inputs every task reads, and the shape of the range they fill. */
  datatype Work = Work(matrix: EncryptedMatrix, queries: seq<seq<int>>, b: nat, s: nat, p: int) {
    ghost predicate Valid() { p > 0 && Answerable(matrix, queries, b, s) }

    function Flats(): nat { |queries| * matrix.rows }

    function Words(): nat { Flats() * s }
  }

  /** The shared state: the arena range, the pool of staging rows, the tasks,
      and how many staging rows had to be allocated so far. */
  datatype State = State(local: seq<int>, pool: seq<seq<int>>, tasks: seq<Task>, newRows: nat)

  function Resize(row: seq<int>, length: nat): (r: seq<int>)
    ensures |r| == length
  {
    seq(length, i => At(row, i))
  }

  function Overwrite(local: seq<int>, start: nat, row: seq<int>): (r: seq<int>)
    requires start + |row| <= |local|
    ensures |r| == |local|
  {
    local[..start] + row + local[start + |row|..]
  }

  /** One step of one task. */
  ghost function Step(work: Work, st: State, flat: nat): State
    requires work.Valid() && WellFormed(work, st) && flat < work.Flats()
  {
    match st.tasks[flat]
    case Waiting =>
      if st.pool == [] then
        st.(tasks := st.tasks[flat := Leased(Resize([], work.s))], newRows := st.newRows + 1)
      else
        var last := |st.pool| - 1;
        st.(tasks := st.tasks[flat := Leased(Resize(st.pool[last], work.s))], pool := st.pool[..last])
    case Leased(_) => st.(tasks := st.tasks[flat := Filled(FlatRow(work.matrix, work.queries, work.b, work.s, work.p, flat))])
    case Filled(row) =>
      FlatRoom(flat, work.Flats(), work.s);
      st.(tasks := st.tasks[flat := Copied(row)], local := Overwrite(st.local, flat * work.s, row))
    case Copied(row) => st.(tasks := st.tasks[flat := Finished], pool := st.pool + [row])
    case Finished => st
  }

  /** Shapes only: nothing is said about what the arena or the pool holds. */
  ghost predicate WellFormed(work: Work, st: State) {
    && |st.local| == work.Words()
    && |st.tasks| == work.Flats()
    && forall flat | 0 <= flat < |st.tasks| && st.tasks[flat].Holding() :: |st.tasks[flat].row| == work.s
  }

  ghost predicate TaskRight(work: Work, st: State, flat: nat)
    requires work.Valid() && flat < work.Flats() && |st.tasks| == work.Flats()
  {
    var right := FlatRow(work.matrix, work.queries, work.b, work.s, work.p, flat);
    && (st.tasks[flat].Filled? || st.tasks[flat].Copied? ==> st.tasks[flat].row == right)
    && (st.tasks[flat].Copied? || st.tasks[flat].Finished? ==> Row(st.local, flat, work.s) == right)
  }

  ghost predicate Invariant(work: Work, st: State)
    requires work.Valid()
  {
    WellFormed(work, st) && forall flat: nat | flat < work.Flats() :: TaskRight(work, st, flat)
  }

  /** Any state before the first step, whatever the arena and the pool hold. */
  ghost predicate Initial(work: Work, st: State) {
    && |st.local| == work.Words()
    && |st.tasks| == work.Flats()
    && (forall flat | 0 <= flat < |st.tasks| :: st.tasks[flat] == Waiting)
    && st.newRows == 0
  }

  lemma OverwriteOutside(local: seq<int>, start: nat, row: seq<int>)
    requires start + |row| <= |local|
    ensures SameOutside(local, Overwrite(local, start, row), start, |row|)
    ensures Overwrite(local, start, row)[start..start + |row|] == row
  {
  }

  /** The copy step writes its own row and no other. */
  lemma CopyKeepsOthers(work: Work, local: seq<int>, row: seq<int>, flat: nat, other: nat)
    requires flat < work.Flats() && other < work.Flats() && |local| == work.Words() && |row| == work.s
    ensures 0 <= flat * work.s && flat * work.s + work.s <= |local|
    ensures var after := Overwrite(local, flat * work.s, row);
            Row(after, other, work.s) == if other == flat then row else Row(local, other, work.s)
  {
    FlatRoom(flat, work.Flats(), work.s);
    OverwriteOutside(local, flat * work.s, row);
    var after := Overwrite(local, flat * work.s, row);
    if other == flat {
      RowSlice(after, flat, work.Flats(), work.s);
    } else {
      OtherRow(local, after, work.s, work.Flats(), flat, other);
    }
  }

  /** Every step of every task keeps the invariant. */
  lemma StepKeepsInvariant(work: Work, st: State, flat: nat)
    requires work.Valid() && Invariant(work, st) && flat < work.Flats()
    ensures Invariant(work, Step(work, st, flat))
    ensures Step(work, st, flat).tasks[flat].Progress() == Min(st.tasks[flat].Progress() + 1, 4)
    ensures forall other | 0 <= other < work.Flats() && other != flat :: Step(work, st, flat).tasks[other] == st.tasks[other]
  {
    hide FlatRow, Row, Resize, Overwrite, SameOutside, Answerable;
    var next := Step(work, st, flat);
    FlatRoom(flat, work.Flats(), work.s);
    assert |next.local| == |st.local|;
    forall other: nat | other < work.Flats() ensures TaskRight(work, next, other) {
      assert TaskRight(work, st, other) && TaskRight(work, st, flat);
      if st.tasks[flat].Filled? { CopyKeepsOthers(work, st.local, st.tasks[flat].row, flat, other); }
    }
  }

  /** A whole run: which task takes each step is arbitrary. */
  ghost function Run(work: Work, st: State, schedule: seq<nat>): State
    requires work.Valid() && Invariant(work, st) && forall i | 0 <= i < |schedule| :: schedule[i] < work.Flats()
    decreases |schedule|, 0
  {
    if schedule == [] then st
    else
      var n := |schedule| - 1;
      RunKeepsInvariant(work, st, schedule[..n]);
      Step(work, Run(work, st, schedule[..n]), schedule[n])
  }

  lemma {:induction false} RunKeepsInvariant(work: Work, st: State, schedule: seq<nat>)
    requires work.Valid() && Invariant(work, st) && forall i | 0 <= i < |schedule| :: schedule[i] < work.Flats()
    ensures Invariant(work, Run(work, st, schedule))
    decreases |schedule|, 1
  {
    if schedule != [] {
      var n := |schedule| - 1;
      RunKeepsInvariant(work, st, schedule[..n]);
      StepKeepsInvariant(work, Run(work, st, schedule[..n]), schedule[n]);
    }
  }

  // ----- Completion -----

  ghost predicate Tasks(work: Work, schedule: seq<nat>) { forall i | 0 <= i < |schedule| :: schedule[i] < work.Flats() }

  /** Every row is scheduled until it is done. */
  ghost predicate Complete(work: Work, schedule: seq<nat>) {
    Tasks(work, schedule) && forall flat: nat | flat < work.Flats() :: multiset(schedule)[flat] >= 4
  }

  /** One worker taking the rows in order: the simplest complete schedule. */
  function OneByOne(flats: nat): seq<nat> {
    if flats == 0 then [] else OneByOne(flats - 1) + [flats - 1, flats - 1, flats - 1, flats - 1]
  }

  lemma {:induction false} OneByOneCompletes(flats: nat, flat: nat)
    ensures forall i | 0 <= i < |OneByOne(flats)| :: OneByOne(flats)[i] < flats
    ensures flat < flats ==> multiset(OneByOne(flats))[flat] >= 4
  {
    if flats > 0 {
      OneByOneCompletes(flats - 1, flat);
      var before, last: seq<nat> := OneByOne(flats - 1), [flats - 1, flats - 1, flats - 1, flats - 1];
      assert OneByOne(flats) == before + last;
      hide OneByOne;
      assert multiset(last) == multiset{flats - 1, flats - 1, flats - 1, flats - 1};
      assert multiset(before + last) == multiset(before) + multiset(last);
    }
  }

  lemma OneByOneIsComplete(work: Work)
    ensures Complete(work, OneByOne(work.Flats()))
  {
    OneByOneCompletes(work.Flats(), 0);
    forall flat: nat | flat < work.Flats() ensures multiset(OneByOne(work.Flats()))[flat] >= 4 { OneByOneCompletes(work.Flats(), flat); }
  }

  lemma {:induction false} ProgressCounts(work: Work, st: State, schedule: seq<nat>, flat: nat)
    requires work.Valid() && Invariant(work, st) && Tasks(work, schedule) && flat < work.Flats()
    requires st.tasks[flat] == Waiting
    ensures Invariant(work, Run(work, st, schedule))
    ensures Run(work, st, schedule).tasks[flat].Progress() == Min(multiset(schedule)[flat], 4)
    decreases |schedule|
  {
    RunKeepsInvariant(work, st, schedule);
    if schedule != [] {
      var n := |schedule| - 1;
      ProgressCounts(work, st, schedule[..n], flat);
      StepKeepsInvariant(work, Run(work, st, schedule[..n]), schedule[n]);
      assert schedule == schedule[..n] + [schedule[n]];
      assert multiset(schedule) == multiset(schedule[..n]) + multiset{schedule[n]};
    }
  }

  lemma InitialIsInvariant(work: Work, st: State)
    requires work.Valid() && Initial(work, st)
    ensures Invariant(work, st)
  {
  }

  /** Any schedule that finishes every row leaves the range equal to the
      concatenated answers, whatever stale data the arena and the pooled rows
      held and however the workers interleaved. */
  lemma {:induction false} AnyScheduleAnswers(work: Work, st: State, schedule: seq<nat>)
    requires work.Valid() && Initial(work, st)
    requires (forall i | 0 <= i < |schedule| :: schedule[i] < work.Flats())
             && forall flat: nat | flat < work.Flats() :: multiset(schedule)[flat] >= 4
    ensures Invariant(work, st)
    ensures Run(work, st, schedule).local == BatchOf(work.matrix, work.queries, work.b, work.s, work.p)
  {
    InitialIsInvariant(work, st);
    RunKeepsInvariant(work, st, schedule);
    var end := Run(work, st, schedule);
    forall flat: nat | flat < work.Flats() ensures FlatDone(end.local, work.matrix, work.queries, work.b, work.s, work.p, flat) {
      ProgressCounts(work, st, schedule, flat);
      assert TaskRight(work, end, flat);
    }
    FlatRowsAreBatch(end.local, work.matrix, work.queries, work.b, work.s, work.p);
  }

  // ----- The pool -----

  ghost function Outstanding(tasks: seq<Task>): nat {
    if tasks == [] then 0 else Outstanding(tasks[..|tasks| - 1]) + (if tasks[|tasks| - 1].Holding() then 1 else 0)
  }

  lemma {:induction false} OutstandingUpdate(tasks: seq<Task>, flat: nat, task: Task)
    requires flat < |tasks|
    ensures Outstanding(tasks[flat := task]) + (if tasks[flat].Holding() then 1 else 0)
            == Outstanding(tasks) + (if task.Holding() then 1 else 0)
  {
    var n := |tasks| - 1;
    if flat < n {
      OutstandingUpdate(tasks[..n], flat, task);
      assert tasks[flat := task][..n] == tasks[..n][flat := task];
    } else {
      assert tasks[flat := task][..n] == tasks[..n];
    }
  }

  /** Staging rows are conserved: each is in the pool or held by one task. */
  ghost function Rows(st: State): nat { |st.pool| + Outstanding(st.tasks) }

  lemma StepConservesRows(work: Work, st: State, flat: nat)
    requires work.Valid() && WellFormed(work, st) && flat < work.Flats()
    ensures var next := Step(work, st, flat);
            && Rows(next) - next.newRows == Rows(st) - st.newRows
            && st.newRows <= next.newRows
            && (next.newRows > st.newRows <==> st.tasks[flat].Waiting? && st.pool == [])
  {
    OutstandingUpdate(st.tasks, flat, Step(work, st, flat).tasks[flat]);
    if st.tasks[flat].Finished? { assert st.tasks[flat := Finished] == st.tasks; }
  }

  /** A staging row is allocated only when every row ever made is held by some
      task: with as many pooled rows as workers, a warm pool never allocates. */
  lemma WarmPoolServes(work: Work, st: State, flat: nat, workers: nat)
    requires work.Valid() && WellFormed(work, st) && flat < work.Flats()
    requires st.tasks[flat].Waiting? && Outstanding(st.tasks) < workers <= Rows(st)
    ensures Step(work, st, flat).newRows == st.newRows && Outstanding(Step(work, st, flat).tasks) <= workers
  {
    StepConservesRows(work, st, flat);
    OutstandingUpdate(st.tasks, flat, Step(work, st, flat).tasks[flat]);
  }

  // ----- The tier as it runs -----

  /** One task takes one step: at most one row leaves or enters the pool, or one
      chunk of the arena is written. */
  method TakeStep(work: Work, arena: array<int>, base: nat, pool: seq<seq<int>>, tasks: seq<Task>,
                  ghost newRows: nat, flat: nat)
    returns (poolAfter: seq<seq<int>>, tasksAfter: seq<Task>, ghost newRowsAfter: nat)
    requires work.Valid() && flat < work.Flats() && base + work.Words() <= arena.Length
    requires WellFormed(work, State(arena[base..base + work.Words()], pool, tasks, newRows))
    modifies arena
    ensures State(arena[base..base + work.Words()], poolAfter, tasksAfter, newRowsAfter)
            == Step(work, old(State(arena[base..base + work.Words()], pool, tasks, newRows)), flat)
    ensures SameOutside(old(arena[..]), arena[..], base, work.Words())
  {
    hide FlatRow, Row, Answerable, Resize, Overwrite;
    poolAfter, tasksAfter, newRowsAfter := pool, tasks, newRows;
    match tasks[flat]
    case Waiting =>
      if pool == [] {
        newRowsAfter := newRows + 1;
        tasksAfter := tasks[flat := Leased(Resize([], work.s))];
      } else {
        var last := |pool| - 1;
        poolAfter := pool[..last];
        tasksAfter := tasks[flat := Leased(Resize(pool[last], work.s))];
      }
    case Leased(row) =>
      var filled := FillStaging(work, row, flat);
      tasksAfter := tasks[flat := Filled(filled)];
    case Filled(row) =>
      CopyRow(arena, base, work.Words(), flat * work.s, row, flat, work.Flats());
      tasksAfter := tasks[flat := Copied(row)];
    case Copied(row) =>
      poolAfter := pool + [row];
      tasksAfter := tasks[flat := Finished];
    case Finished =>
  }

  /** Runs one schedule on the arena and the pool in place. */
  method RunTasks(work: Work, arena: array<int>, base: nat, pool: seq<seq<int>>, schedule: seq<nat>)
    returns (poolAfter: seq<seq<int>>)
    requires work.Valid() && Complete(work, schedule) && base + work.Words() <= arena.Length
    modifies arena
    ensures arena[base..base + work.Words()] == BatchOf(work.matrix, work.queries, work.b, work.s, work.p)
    ensures SameOutside(old(arena[..]), arena[..], base, work.Words())
    ensures |poolAfter| >= |pool|
  {
    hide BatchOf, FlatRow, Row, Answerable, Step, TaskRight, SameOutside;
    var tasks: seq<Task> := seq(work.Flats(), i => Waiting);
    poolAfter := pool;
    ghost var first := State(arena[base..base + work.Words()], pool, tasks, 0);
    ghost var newRows := 0;
    ghost var start := arena[..];
    InitialIsInvariant(work, first);
    var i := 0;
    assert schedule[..0] == [];
    NoneOutstanding(tasks);
    SameOutsideReflexive(start, base, work.Words());
    while i < |schedule|
      invariant 0 <= i <= |schedule|
      invariant SameOutside(start, arena[..], base, work.Words())
      invariant Invariant(work, State(arena[base..base + work.Words()], poolAfter, tasks, newRows))
      invariant Run(work, first, schedule[..i]) == State(arena[base..base + work.Words()], poolAfter, tasks, newRows)
      invariant |poolAfter| + Outstanding(tasks) == |pool| + newRows
    {
      ghost var now := State(arena[base..base + work.Words()], poolAfter, tasks, newRows);
      ghost var before := arena[..];
      StepKeepsInvariant(work, now, schedule[i]);
      StepConservesRows(work, now, schedule[i]);
      RunStep(work, first, schedule, i);
      poolAfter, tasks, newRows := TakeStep(work, arena, base, poolAfter, tasks, newRows, schedule[i]);
      SameOutsideTransitive(start, before, arena[..], base, work.Words());
      i := i + 1;
    }
    assert schedule[..i] == schedule;
    AnyScheduleAnswers(work, first, schedule);
    AllFinished(work, first, schedule);
    NoneOutstanding(tasks);
  }

  lemma SameOutsideReflexive(a: seq<int>, start: nat, length: nat)
    ensures SameOutside(a, a, start, length)
  {
  }

  lemma SameOutsideTransitive(a: seq<int>, b: seq<int>, c: seq<int>, start: nat, length: nat)
    requires SameOutside(a, b, start, length) && SameOutside(b, c, start, length)
    ensures SameOutside(a, c, start, length)
  {
  }

  lemma {:induction false} RunStep(work: Work, first: State, schedule: seq<nat>, i: nat)
    requires work.Valid() && Invariant(work, first) && Tasks(work, schedule) && i < |schedule|
    ensures Invariant(work, Run(work, first, schedule[..i]))
    ensures Run(work, first, schedule[..i + 1]) == Step(work, Run(work, first, schedule[..i]), schedule[i])
  {
    RunKeepsInvariant(work, first, schedule[..i]);
    assert schedule[..i + 1][..i] == schedule[..i];
  }

  lemma {:induction false} NoneOutstanding(tasks: seq<Task>)
    requires forall i | 0 <= i < |tasks| :: !tasks[i].Holding()
    ensures Outstanding(tasks) == 0
  {
    if tasks != [] { NoneOutstanding(tasks[..|tasks| - 1]); }
  }

  lemma {:induction false} AllFinished(work: Work, first: State, schedule: seq<nat>)
    requires work.Valid() && Initial(work, first) && Invariant(work, first) && Complete(work, schedule)
    ensures Invariant(work, Run(work, first, schedule))
    ensures forall flat: nat | flat < work.Flats() :: Run(work, first, schedule).tasks[flat].Finished?
  {
    RunKeepsInvariant(work, first, schedule);
    forall flat: nat | flat < work.Flats() ensures Run(work, first, schedule).tasks[flat].Finished? {
      ProgressCounts(work, first, schedule, flat);
    }
  }

  /** The row kernel, writing into the leased staging row. */
  method FillStaging(work: Work, stale: seq<int>, flat: nat) returns (row: seq<int>)
    requires work.Valid() && flat < work.Flats() && |stale| == work.s
    ensures row == FlatRow(work.matrix, work.queries, work.b, work.s, work.p, flat)
  {
    var rows, n := work.matrix.rows, work.matrix.columns;
    FlatIndex(flat, rows, |work.queries|);
    var query, index := work.queries[flat / rows], flat % rows;
    RowSlice(work.matrix.values, index, rows, n);
    RowAnswerIsAnswerRow(work.matrix.values, query, n, work.b, work.s, work.p, index);
    var scratch := new int[work.s](i requires 0 <= i < |stale| => stale[i]);
    FillAnswerRow(work.matrix.values[index * n..index * n + n], query, work.b, scratch, 0, work.s, work.p);
    row := scratch[..];
    assert scratch[..] == scratch[0..work.s];
  }

  /** Copies a staging row over its own chunk of the arena range. */
  method CopyRow(arena: array<int>, base: nat, words: nat, start: int, row: seq<int>, ghost flat: nat, ghost flats: nat)
    requires base + words <= arena.Length && flat < flats && start == flat * |row| && words == flats * |row|
    modifies arena
    ensures 0 <= start && start + |row| <= words
    ensures arena[base..base + words] == Overwrite(old(arena[base..base + words]), start, row)
    ensures SameOutside(old(arena[..]), arena[..], base, words)
  {
    FlatRoom(flat, flats, |row|);
    var i := 0;
    while i < |row|
      invariant 0 <= i <= |row|
      invariant forall x | 0 <= x < arena.Length ::
                  arena[x] == if base + start <= x < base + start + i then row[x - base - start] else old(arena[x])
    {
      arena[base + start + i] := row[i];
      i := i + 1;
    }
  }
}
