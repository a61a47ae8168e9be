/**
 * The driver of src/composables/sudokuSolver.ts: the solver state (the live
 * field, the history, the solved flag), `useMethod`, which runs one strategy
 * over the field and commits a snapshot when something changed,
 * `executeMethodsSequentially`, which tries the strategies in order until one
 * makes progress, `backToLastState` (undo) and `initSudokuSolver`.
 *
 * The live change log is the history's `changeLog`; a strategy run appends to
 * it through the board it works on.
 */
module Solver {
  import opened Wrappers
  import opened History
  import Hist = History
  import opened Cells
  import opened Grid
  import opened Notes
  import opened Units
  import opened Pointing
  import XW = XWing
  import YW = YWing

  /** The strategy keys, in declaration order. */
  datatype Method =
    | UpdateNotes | ObviousSingles | ObviousPairs | ObviousTriples
    | HiddenSingles | HiddenPairs | HiddenTriples | PointingNumbers | XWing | YWing

  /** The composable's `state` together with its `historyLog`. */
  datatype Solver = Solver(field: Field, history: History<Field>, isSolved: bool)

  // ---------------------------------------------------------------------------
  // One strategy over the field

  /** The strategy each key names in `useMethod`'s inner chain, run on one cell. `UpdateNotes` has
      no branch there: it is run over the whole field instead. */
  function Strategy(m: Method, b: Board, p: Pos): (r: Board)
    requires ValidField(b.field) && InGrid(p)
    ensures ValidField(r.field) && b.log <= r.log
    ensures m == UpdateNotes ==> r == b
  {
    match m
    case UpdateNotes => b
    case ObviousSingles => CheckForObviousNs(b, p, 1)
    case ObviousPairs => CheckForObviousNs(b, p, 2)
    case ObviousTriples => CheckForObviousNs(b, p, 3)
    case HiddenSingles => CheckForHiddenNs(b, p, 1)
    case HiddenPairs => CheckForHiddenNs(b, p, 2)
    case HiddenTriples => CheckForHiddenNs(b, p, 3)
    case PointingNumbers => CheckForPointingNumbers(b, p)
    case XWing => XW.CheckWithXWing(b, p)
    case YWing => YW.CheckWithYWing(b, p)
  }

  /** A strategy step on one cell evolves a well-formed field and keeps it well formed; all but
      Obvious Singles only narrow it. */
  lemma StrategyEvolves(m: Method, b: Board, p: Pos)
    requires ValidField(b.field) && InGrid(p) && WellFormedField(b.field)
    ensures Evolved(b.field, Strategy(m, b, p).field) && WellFormedField(Strategy(m, b, p).field)
    ensures m != ObviousSingles ==> Narrowed(b.field, Strategy(m, b, p).field)
  {
    match m
    case PointingNumbers =>
      PointingNarrows(b, p);
    case YWing =>
      YW.YWingNarrows(b, p, IsAtTheSameRow, IsAtTheSameColumn);
    case _ =>
  }

  /** `Strategy(m, ·, ·)` as a step the sweep can apply anywhere: off a valid field it does nothing. */
  function StrategyStep(m: Method): (Board, Pos) -> Board {
    (b: Board, p: Pos) => if ValidField(b.field) && InGrid(p) then Strategy(m, b, p) else b
  }

  /** What the sweep relies on of a cell step: the field stays valid and the log only grows; a
      well-formed field evolves and stays well formed, and is only narrowed when `narrows`. */
  ghost predicate StepKeeps(step: (Board, Pos) -> Board, narrows: bool) {
    forall b: Board, p: Pos | ValidField(b.field) && InGrid(p) ::
      && ValidField(step(b, p).field) && b.log <= step(b, p).log
      && (WellFormedField(b.field) ==> Evolved(b.field, step(b, p).field) && WellFormedField(step(b, p).field))
      && (WellFormedField(b.field) && narrows ==> Narrowed(b.field, step(b, p).field))
  }

  /** Every strategy is a step the sweep can rely on, narrowing unless it is Obvious Singles. */
  lemma StrategyKeeps(m: Method)
    ensures StepKeeps(StrategyStep(m), m != ObviousSingles)
  {
    var step := StrategyStep(m);
    forall b: Board, p: Pos | ValidField(b.field) && InGrid(p)
      ensures ValidField(step(b, p).field) && b.log <= step(b, p).log
      ensures WellFormedField(b.field) ==> Evolved(b.field, step(b, p).field) && WellFormedField(step(b, p).field)
      ensures WellFormedField(b.field) && m != ObviousSingles ==> Narrowed(b.field, step(b, p).field)
    {
      assert step(b, p) == Strategy(m, b, p);
      if WellFormedField(b.field) {
        StrategyEvolves(m, b, p);
      }
    }
  }

  /** The nested `i`/`j` loops of `useMethod` from cell `(q.row, q.col)` on: `step` runs on each
      cell that is unset when the loops reach it, on the field as the earlier cells left it. Column
      `FieldLength` stands for the end of a row. */
  function RowMajorSweep(step: (Board, Pos) -> Board, b: Board, q: Pos): Board
    requires 0 <= q.row <= FieldLength && 0 <= q.col <= FieldLength
    decreases FieldLength - q.row, FieldLength - q.col
  {
    if q.row == FieldLength then b
    else if q.col == FieldLength then RowMajorSweep(step, b, Pos(q.row + 1, 0))
    else RowMajorSweep(step, if ValidField(b.field) && IsEmpty(At(b.field, q)) then step(b, q) else b, Pos(q.row, q.col + 1))
  }

  /** What `useMethod(methodKey)` does to the board before the change test: `UpdateNotes` prunes the
      notes of every cell, any other key's strategy is swept over the cells unset when reached. */
  function MethodResult(m: Method, b: Board): Board
    requires ValidField(b.field)
  {
    if m == UpdateNotes then CheckAllCellsSurroundings(b) else RowMajorSweep(StrategyStep(m), b, Pos(0, 0))
  }

  /** What the sweep keeps of the field it started from: `r`'s field is valid and its log extends
      `b`'s; a well-formed start evolved into `r` and `r` is well formed, and only narrowed when
      `narrows`. */
  ghost predicate Kept(b: Board, r: Board, narrows: bool)
    requires ValidField(b.field)
  {
    && ValidField(r.field) && b.log <= r.log
    && (WellFormedField(b.field) ==> Evolved(b.field, r.field) && WellFormedField(r.field))
    && (WellFormedField(b.field) && narrows ==> Narrowed(b.field, r.field))
  }

  /** The nested `i`/`j` loops of `useMethod` for a cell step, in row-major order: the step runs on
      each cell that is unset when the loops reach it, and sees every change made before. */
  method SweepWith(step: (Board, Pos) -> Board, narrows: bool, b: Board) returns (r: Board)
    requires ValidField(b.field) && StepKeeps(step, narrows)
    ensures r == RowMajorSweep(step, b, Pos(0, 0))
    ensures ValidField(r.field) && b.log <= r.log
    ensures WellFormedField(b.field) ==> Evolved(b.field, r.field) && WellFormedField(r.field)
    ensures WellFormedField(b.field) && narrows ==> Narrowed(b.field, r.field)
  {
    r := b;
    for i := 0 to FieldLength
      invariant Kept(b, r, narrows)
      invariant RowMajorSweep(step, r, Pos(i, 0)) == RowMajorSweep(step, b, Pos(0, 0))
    {
      r := SweepRow(step, narrows, b, r, i);
    }
  }

  /** The inner `j` loop for row `i`: sweeping the row and then on from the next row is sweeping
      from the row's first cell. */
  method SweepRow(step: (Board, Pos) -> Board, narrows: bool, b: Board, r0: Board, i: int) returns (r: Board)
    requires ValidField(b.field) && StepKeeps(step, narrows) && 0 <= i < FieldLength
    requires Kept(b, r0, narrows)
    ensures Kept(b, r, narrows)
    ensures RowMajorSweep(step, r, Pos(i + 1, 0)) == RowMajorSweep(step, r0, Pos(i, 0))
  {
    r := r0;
    for j := 0 to FieldLength
      invariant Kept(b, r, narrows)
      invariant RowMajorSweep(step, r, Pos(i, j)) == RowMajorSweep(step, r0, Pos(i, 0))
    {
      var q := Pos(i, j);
      var next := if IsEmpty(At(r.field, q)) then step(r, q) else r;
      SweepCell(step, narrows, b, r, q, next);
      SweepVisit(step, r, q, next);
      r := next;
    }
  }

  /** One cell of the sweep: what the sweep keeps of the field still holds after visiting `q`. */
  lemma SweepCell(step: (Board, Pos) -> Board, narrows: bool, b: Board, r: Board, q: Pos, next: Board)
    requires StepKeeps(step, narrows) && ValidField(b.field) && InGrid(q) && Kept(b, r, narrows)
    requires next == if IsEmpty(At(r.field, q)) then step(r, q) else r
    ensures Kept(b, next, narrows)
  {
    if IsEmpty(At(r.field, q)) && WellFormedField(b.field) {
      EvolvedTransitive(b.field, r.field, next.field);
      if narrows {
        NarrowedTransitive(b.field, r.field, next.field);
      }
    }
  }

  /** Visiting `q` and sweeping on from the next cell is sweeping from `q`. */
  lemma SweepVisit(step: (Board, Pos) -> Board, r: Board, q: Pos, next: Board)
    requires ValidField(r.field) && InGrid(q)
    requires next == if IsEmpty(At(r.field, q)) then step(r, q) else r
    ensures RowMajorSweep(step, r, q) == RowMajorSweep(step, next, Pos(q.row, q.col + 1))
  {
  }

  /** `useMethod`'s loops for strategy `m`. On a well-formed field the result evolved from the start
      (only narrowed, unless the strategy is Obvious Singles). */
  method Sweep(m: Method, b: Board) returns (r: Board)
    requires ValidField(b.field)
    ensures r == RowMajorSweep(StrategyStep(m), b, Pos(0, 0))
    ensures ValidField(r.field) && b.log <= r.log
    ensures WellFormedField(b.field) ==> Evolved(b.field, r.field) && WellFormedField(r.field)
    ensures WellFormedField(b.field) && m != ObviousSingles ==> Narrowed(b.field, r.field)
  {
    StrategyKeeps(m);
    r := SweepWith(StrategyStep(m), m != ObviousSingles, b);
  }

  /** The strategy part of `useMethod(methodKey)`: `UpdateNotes` prunes the notes of every cell and
      leaves every cell settled (a field already settled is returned as it is); any other strategy
      is swept over the unset cells. */
  method RunMethod(m: Method, b: Board) returns (r: Board)
    requires ValidField(b.field)
    ensures r == MethodResult(m, b)
    ensures ValidField(r.field) && b.log <= r.log
    ensures WellFormedField(b.field) ==> Evolved(b.field, r.field) && WellFormedField(r.field)
    ensures WellFormedField(b.field) && m != ObviousSingles ==> Narrowed(b.field, r.field)
    ensures m == UpdateNotes ==> forall q :: InGrid(q) ==> SettledAt(r.field, q)
    ensures m == UpdateNotes && (forall q :: InGrid(q) ==> SettledAt(b.field, q)) ==> r == b
  {
    if m == UpdateNotes {
      r := CheckAllCellsSurroundings(b);
      if forall q :: InGrid(q) ==> SettledAt(b.field, q) {
        SettledUnchanged(b);
      }
    } else {
      r := Sweep(m, b);
    }
  }

  // ---------------------------------------------------------------------------
  // The solver's invariant

  /** Two fields with the same preset flags everywhere. */
  ghost predicate SamePresets(f: Field, g: Field)
    requires ValidField(f) && ValidField(g)
  {
    forall q :: InGrid(q) ==> At(f, q).preset == At(g, q).preset
  }

  /** Every snapshot holds a valid, well-formed field with the live field's preset flags. */
  ghost predicate SnapshotsAgree(h: History<Field>, f: Field)
    requires ValidField(f)
  {
    forall i :: 0 <= i < |h.stack| ==>
      && ValidField(h.stack[i].fieldState)
      && WellFormedField(h.stack[i].fieldState)
      && SamePresets(h.stack[i].fieldState, f)
  }

  /** What holds between operations: the history is never empty, the live field is valid, well
      formed and equal to the top snapshot, every snapshot agrees with it on the preset cells,
      and the solved flag is never set on an unsolved field. */
  ghost predicate Consistent(s: Solver) {
    && |s.history.stack| > 0
    && ValidField(s.field)
    && WellFormedField(s.field)
    && s.field == FieldState(s.history)
    && SnapshotsAgree(s.history, s.field)
    && (s.isSolved ==> IsSolved(s.field))
  }

  /** Pushing a field that evolved from the live one keeps the snapshots in agreement. */
  lemma PushAgrees(h: History<Field>, f: Field, f': Field)
    requires ValidField(f) && ValidField(f') && WellFormedField(f) && WellFormedField(f')
    requires SnapshotsAgree(h, f) && Evolved(f, f')
    ensures SnapshotsAgree(AddNewState(h, f'), f')
  {
    var h' := AddNewState(h, f');
    forall i | 0 <= i < |h'.stack|
      ensures ValidField(h'.stack[i].fieldState) && WellFormedField(h'.stack[i].fieldState)
      ensures SamePresets(h'.stack[i].fieldState, f')
    {
      if i < |h.stack| {
        assert h'.stack[i] == h.stack[i];
        assert SamePresets(h.stack[i].fieldState, f);
      }
    }
  }

  // ---------------------------------------------------------------------------
  // useMethod and executeMethodsSequentially

  /** `useMethod(methodKey)`: run the strategy on the live field (`UpdateNotes` on every cell, any
      other strategy on every unset cell). When the field differs from the top snapshot, return the
      cells that differ, push a snapshot and recompute the solved flag; otherwise return no cells
      and leave the stack and the flag alone. A solved field, and, for `UpdateNotes`, a field whose
      notes are settled, is left unchanged. */
  method UseMethod(s: Solver, m: Method) returns (s': Solver, updated: seq<Cell>)
    requires Consistent(s)
    ensures Consistent(s')
    ensures s.history.changeLog <= s'.history.changeLog
    ensures Evolved(s.field, s'.field)
    ensures m != ObviousSingles ==> Narrowed(s.field, s'.field)
    ensures m == UpdateNotes ==> forall q :: InGrid(q) ==> SettledAt(s'.field, q)
    ensures updated == [] <==> s'.field == s.field
    ensures updated == [] ==> s'.history.stack == s.history.stack && s'.isSolved == s.isSolved
    ensures updated != [] ==> s'.history.stack == s.history.stack + [HistoryState(s'.field, s'.history.changeLog)]
    ensures updated != [] ==> s'.isSolved == IsSolved(s'.field)
    ensures Reports(s.field, s'.field, updated)
    ensures IsSolved(s.field) ==> updated == []
    ensures m == UpdateNotes && (forall q :: InGrid(q) ==> SettledAt(s.field, q)) ==> updated == []
    ensures Board(s'.field, s'.history.changeLog) == MethodResult(m, Board(s.field, s.history.changeLog))
  {
    var b := RunMethod(m, Board(s.field, s.history.changeLog));
    if IsSolved(s.field) {
      SolvedUnchanged(s.field, b.field);
    }
    s', updated := CommitIfChanged(s, b);
  }

  /** The tail of `useMethod`: `isFieldChanged()` compares the field a strategy produced with the
      top snapshot; when they differ, the cells that differ are returned, a snapshot is pushed and
      the solved flag recomputed. The field and the change log are taken over either way. */
  method CommitIfChanged(s: Solver, b: Board) returns (s': Solver, updated: seq<Cell>)
    requires Consistent(s) && ValidField(b.field) && WellFormedField(b.field)
    requires s.history.changeLog <= b.log && Evolved(s.field, b.field)
    ensures Consistent(s') && s'.field == b.field && s'.history.changeLog == b.log
    ensures updated == [] <==> b.field == s.field
    ensures updated == [] ==> s'.history.stack == s.history.stack && s'.isSolved == s.isSolved
    ensures updated != [] ==> s'.history.stack == s.history.stack + [HistoryState(b.field, b.log)]
    ensures updated != [] ==> s'.isSolved == IsSolved(b.field)
    ensures Reports(s.field, b.field, updated)
  {
    var h := s.history.(changeLog := b.log);
    var snapshot := FieldState(s.history);
    assert SamePresets(b.field, snapshot);
    ChangedIffUpdatedCells(b.field, snapshot);
    if b.field != snapshot {
      PushAgrees(h, s.field, b.field);
      s' := Solver(b.field, AddNewState(h, b.field), IsSolved(b.field));
      updated := GetLastUpdatedCells(b.field, snapshot);
    } else {
      s' := Solver(b.field, h, s.isSolved);
      updated := [];
    }
  }

  /** Every value of a solved field is set, and a set cell never evolves, so nothing can change. */
  lemma SolvedUnchanged(f: Field, f': Field)
    requires ValidField(f) && ValidField(f') && IsSolved(f) && Evolved(f, f')
    ensures f' == f
  {
    forall q | InGrid(q) ensures At(f', q) == At(f, q) {
      assert !Falsy(At(f, q).value);
      assert Evolves(At(f, q), At(f', q));
    }
    FieldExtensionality(f', f);
  }

  /** Undo after progress: going back after `useMethod` pushed a snapshot onto a consistent state
      gives that state's field and stack. */
  lemma BackAfterPush(s: Solver, s': Solver)
    requires Consistent(s) && Consistent(s')
    requires s'.history.stack == s.history.stack + [HistoryState(s'.field, s'.history.changeLog)]
    ensures BackToLastState(s').field == s.field && BackToLastState(s').history.stack == s.history.stack
  {
    assert s'.history.stack[..|s'.history.stack| - 1] == s.history.stack;
  }

  /** The entries of a run of `executeMethodsSequentially`: every strategy tried, in order from the
      `i`-th, with the cells it changed; all but the last changed nothing. */
  predicate Attempts(order: seq<Method>, entries: seq<(Method, seq<Cell>)>, i: nat)
    requires i <= |order|
  {
    && |entries| <= |order| - i
    && (forall k :: 0 <= k < |entries| ==> entries[k].0 == order[i + k])
    && (forall k :: 0 <= k < |entries| - 1 ==> entries[k].1 == [])
  }

  /** The last strategy tried made progress. */
  predicate Progressed(entries: seq<(Method, seq<Cell>)>) {
    |entries| > 0 && entries[|entries| - 1].1 != []
  }

  /** `MethodResult` as a total function value: off a valid field it does nothing. The run's
      facts below are stated for any such `run`, and hold for this one. */
  function Run(m: Method, b: Board): Board {
    if ValidField(b.field) then MethodResult(m, b) else b
  }

  /** Strategy `m`, run on `f` with some change log that extends `log0`, leaves the field as it was. */
  ghost predicate Stalls(run: (Method, Board) -> Board, m: Method, f: Field, log0: seq<ChangeLogLine>) {
    exists log :: log0 <= log && run(m, Board(f, log)).field == f
  }

  /** Strategy `m`, run on `f` with some change log that extends `log0`, yields field `f'` and log `log'`. */
  ghost predicate Advances(run: (Method, Board) -> Board, m: Method, f: Field, log0: seq<ChangeLogLine>, f': Field, log': seq<ChangeLogLine>) {
    exists log :: log0 <= log && run(m, Board(f, log)) == Board(f', log')
  }

  /** `updated` is what `getLastUpdatedCells` reports between `f` and `f'`: exactly the cells of `f'`
      that differ from `f`, in row-major order. */
  ghost predicate Reports(f: Field, f': Field, updated: seq<Cell>)
    requires ValidField(f) && ValidField(f')
  {
    && (forall x :: x in updated ==> InGrid(PosOf(x)) && x == At(f', PosOf(x)) && x != At(f, PosOf(x)))
    && (forall q :: InGrid(q) && At(f', q) != At(f, q) ==> At(f', q) in updated)
    && (forall i, j :: 0 <= i < j < |updated| ==> RowMajor(PosOf(updated[i])) < RowMajor(PosOf(updated[j])))
  }

  /** What a run from the `i`-th strategy leaves behind: the attempts are recorded in order, the
      run stops only after progress or after the last strategy, and the log only grows. Every
      strategy recorded without cells stalls on the starting field. Without progress the field,
      the stack and the flag are as before; with progress the last strategy, run on the starting
      field, produced the final field and log, its entry reports exactly the cells it changed,
      and exactly one snapshot was pushed. */
  ghost predicate Outcome(run: (Method, Board) -> Board, order: seq<Method>, s: Solver, s': Solver, executed: seq<(Method, seq<Cell>)>, i: nat)
    requires i <= |order| && ValidField(s.field) && ValidField(s'.field)
  {
    && Attempts(order, executed, i)
    && (i < |order| ==> |executed| > 0)
    && (|executed| < |order| - i ==> Progressed(executed))
    && s.history.changeLog <= s'.history.changeLog
    && (forall k :: 0 <= k < |executed| && executed[k].1 == [] ==>
          Stalls(run, executed[k].0, s.field, s.history.changeLog))
    && (!Progressed(executed) ==>
          s'.field == s.field && s'.history.stack == s.history.stack && s'.isSolved == s.isSolved)
    && (Progressed(executed) ==>
          && |s'.history.stack| == |s.history.stack| + 1 && s.history.stack <= s'.history.stack
          && Advances(run, executed[|executed| - 1].0, s.field, s.history.changeLog, s'.field, s'.history.changeLog)
          && Reports(s.field, s'.field, executed[|executed| - 1].1))
  }

  /** `executeMethodsSequentially()` from the `i`-th strategy on: each strategy tried is recorded
      with the cells it changed, and the run stops after the first one that changes the field. */
  method ExecuteFrom(order: seq<Method>, s: Solver, i: nat) returns (s': Solver, executed: seq<(Method, seq<Cell>)>)
    requires Consistent(s) && i <= |order|
    ensures Consistent(s') && Evolved(s.field, s'.field)
    ensures Outcome(Run, order, s, s', executed, i)
    decreases |order| - i
  {
    if i == |order| {
      s', executed := s, [];
      return;
    }
    var next, updated := Attempt(s, order[i]);
    if updated != [] {
      s', executed := next, [(order[i], updated)];
    } else {
      var rest;
      s', rest := ExecuteFrom(order, next, i + 1);
      ExecuteStep(Run, order, s, next, s', rest, i);
      executed := [(order[i], [])] + rest;
    }
  }

  /** `useMethod` as one attempt of `executeMethodsSequentially` sees it: cells are reported exactly
      when the strategy changed the field, and they are the changed cells; a snapshot is pushed
      only then; the strategy's field and log are taken over. */
  method TryMethod(s: Solver, m: Method) returns (s': Solver, updated: seq<Cell>)
    requires Consistent(s)
    ensures Consistent(s') && Evolved(s.field, s'.field)
    ensures s.history.changeLog <= s'.history.changeLog
    ensures updated == [] <==> s'.field == s.field
    ensures updated == [] ==> s'.history.stack == s.history.stack && s'.isSolved == s.isSolved
    ensures updated != [] ==> |s'.history.stack| == |s.history.stack| + 1 && s.history.stack <= s'.history.stack
    ensures Reports(s.field, s'.field, updated)
    ensures Run(m, Board(s.field, s.history.changeLog)) == Board(s'.field, s'.history.changeLog)
  {
    s', updated := UseMethod(s, m);
  }

  /** One attempt of `executeMethodsSequentially`: the strategy either reported no cells and
      stalled on the field, or reported exactly the cells it changed, with one snapshot pushed and
      the strategy's field and log taken over. */
  method Attempt(s: Solver, m: Method) returns (s': Solver, updated: seq<Cell>)
    requires Consistent(s)
    ensures Consistent(s') && Evolved(s.field, s'.field)
    ensures s.history.changeLog <= s'.history.changeLog
    ensures updated == [] <==> s'.field == s.field
    ensures updated == [] ==>
      s'.history.stack == s.history.stack && s'.isSolved == s.isSolved && Stalls(Run, m, s.field, s.history.changeLog)
    ensures updated != [] ==> |s'.history.stack| == |s.history.stack| + 1 && s.history.stack <= s'.history.stack
    ensures Reports(s.field, s'.field, updated)
    ensures updated != [] ==> Advances(Run, m, s.field, s.history.changeLog, s'.field, s'.history.changeLog)
  {
    s', updated := TryMethod(s, m);
    ghost var run: (Method, Board) -> Board := Run;
    assert run(m, Board(s.field, s.history.changeLog)) == Board(s'.field, s'.history.changeLog);
  }

  /** A stall seen with a longer log is a stall seen from a shorter one. */
  lemma StallsEarlier(run: (Method, Board) -> Board, m: Method, f: Field, log0: seq<ChangeLogLine>, log1: seq<ChangeLogLine>)
    requires log0 <= log1 && Stalls(run, m, f, log1)
    ensures Stalls(run, m, f, log0)
  {
    var log :| log1 <= log && run(m, Board(f, log)).field == f;
    assert log0 <= log;
  }

  /** Progress seen with a longer log is progress seen from a shorter one. */
  lemma AdvancesEarlier(run: (Method, Board) -> Board, m: Method, f: Field, log0: seq<ChangeLogLine>, log1: seq<ChangeLogLine>, f': Field, log': seq<ChangeLogLine>)
    requires log0 <= log1 && Advances(run, m, f, log1, f', log')
    ensures Advances(run, m, f, log0, f', log')
  {
    var log :| log1 <= log && run(m, Board(f, log)) == Board(f', log');
    assert log0 <= log;
  }

  /** A strategy that stalled, followed by the later attempts, is an attempt sequence with the
      same outcome as the later ones. */
  lemma ExecuteStep(run: (Method, Board) -> Board, order: seq<Method>, s: Solver, s': Solver, s'': Solver, rest: seq<(Method, seq<Cell>)>, i: nat)
    requires i < |order| && ValidField(s.field) && ValidField(s''.field)
    requires s'.field == s.field && s'.history.stack == s.history.stack && s'.isSolved == s.isSolved
    requires s.history.changeLog <= s'.history.changeLog && Stalls(run, order[i], s.field, s.history.changeLog)
    requires Outcome(run, order, s', s'', rest, i + 1)
    ensures Outcome(run, order, s, s'', [(order[i], [])] + rest, i)
  {
    var r := [(order[i], [])] + rest;
    assert forall k :: 1 <= k < |r| ==> r[k] == rest[k - 1];
    forall k | 0 <= k < |rest| && rest[k].1 == []
      ensures Stalls(run, rest[k].0, s.field, s.history.changeLog)
    {
      StallsEarlier(run, rest[k].0, s.field, s.history.changeLog, s'.history.changeLog);
    }
    if Progressed(rest) {
      AdvancesEarlier(run, rest[|rest| - 1].0, s.field, s.history.changeLog, s'.history.changeLog, s''.field, s''.history.changeLog);
    }
  }

  /** `executeMethodsSequentially()`: try the strategies in the order of `Object.values(Method)`,
      given as `order`, recording each one tried with the cells it changed, and stop after the
      first that changes the field. Every strategy recorded without cells stalls on the starting
      field; on progress the last one's `MethodResult` on the starting field is the final field
      and log, and its cells are exactly the changed ones. */
  method ExecuteMethodsSequentially(s: Solver, order: seq<Method>) returns (s': Solver, executed: seq<(Method, seq<Cell>)>)
    requires Consistent(s) && |order| > 0
    ensures Consistent(s') && Evolved(s.field, s'.field)
    ensures 0 < |executed| <= |order|
    ensures forall k :: 0 <= k < |executed| ==> executed[k].0 == order[k]
    ensures forall k :: 0 <= k < |executed| - 1 ==> executed[k].1 == []
    ensures |executed| < |order| ==> executed[|executed| - 1].1 != []
    ensures executed[|executed| - 1].1 == [] ==>
      s'.field == s.field && s'.history.stack == s.history.stack && s'.isSolved == s.isSolved
    ensures executed[|executed| - 1].1 != [] ==>
      |s'.history.stack| == |s.history.stack| + 1 && s.history.stack <= s'.history.stack
    ensures s.history.changeLog <= s'.history.changeLog
    ensures forall k :: 0 <= k < |executed| && executed[k].1 == [] ==>
      Stalls(Run, executed[k].0, s.field, s.history.changeLog)
    ensures executed[|executed| - 1].1 != [] ==> Reports(s.field, s'.field, executed[|executed| - 1].1)
    ensures executed[|executed| - 1].1 != [] ==>
      Advances(Run, executed[|executed| - 1].0, s.field, s.history.changeLog, s'.field, s'.history.changeLog)
  {
    s', executed := ExecuteFrom(order, s, 0);
    assert Outcome(Run, order, s, s', executed, 0);
  }

  // ---------------------------------------------------------------------------
  // backToLastState and initSudokuSolver

  /** The loop of `backToLastState`: `setValues` on every live cell with the value and candidates of
      the snapshot's cell at the same position. */
  function Restore(f: Field, snapshot: Field): (f': Field)
    requires ValidField(f) && ValidField(snapshot)
    ensures ValidField(f')
    ensures forall q :: InGrid(q) ==>
      At(f', q) == SetValues(At(f, q), At(snapshot, q).value, At(snapshot, q).candidates)
  {
    seq(FieldLength, i requires 0 <= i < FieldLength =>
      seq(FieldLength, j requires 0 <= j < FieldLength =>
        SetValues(f[i][j], snapshot[i][j].value, snapshot[i][j].candidates)))
  }

  /** Copying value and candidates back onto a field with the same preset flags gives the
      snapshot itself. */
  lemma RestoreExact(f: Field, snapshot: Field)
    requires ValidField(f) && ValidField(snapshot) && SamePresets(snapshot, f)
    ensures Restore(f, snapshot) == snapshot
  {
    var f' := Restore(f, snapshot);
    forall q | InGrid(q) ensures At(f', q) == At(snapshot, q) {
      assert At(snapshot, q).preset == At(f, q).preset;
    }
    FieldExtensionality(f', snapshot);
  }

  /** `backToLastState()`: clear the solved flag, go back in the history and copy the new top
      snapshot's values and candidates onto the live cells. The live field becomes that snapshot. */
  function BackToLastState(s: Solver): (r: Solver)
    requires Consistent(s)
    ensures Consistent(r)
    ensures !r.isSolved
    ensures r.history == Hist.BackToLastState(s.history)
    ensures |s.history.stack| > 1 ==> r.field == s.history.stack[|s.history.stack| - 2].fieldState
    ensures |s.history.stack| == 1 ==> r.field == s.field
  {
    var h := Hist.BackToLastState(s.history);
    PopAgrees(s);
    RestoreExact(s.field, FieldState(h));
    var f := Restore(s.field, FieldState(h));
    Solver(f, h, false)
  }

  /** The snapshots left after going back all agree with the new top one. */
  lemma PopAgrees(s: Solver)
    requires Consistent(s)
    ensures var h := Hist.BackToLastState(s.history);
      && ValidField(FieldState(h)) && WellFormedField(FieldState(h))
      && SamePresets(FieldState(h), s.field)
      && SnapshotsAgree(h, FieldState(h))
  {
    var h := Hist.BackToLastState(s.history);
    var top := FieldState(h);
    assert h.stack[|h.stack| - 1] == s.history.stack[|h.stack| - 1];
    forall i | 0 <= i < |h.stack|
      ensures ValidField(h.stack[i].fieldState) && WellFormedField(h.stack[i].fieldState)
      ensures SamePresets(h.stack[i].fieldState, top)
    {
      assert h.stack[i] == s.history.stack[i];
      assert SamePresets(h.stack[i].fieldState, s.field);
    }
  }

  /** `initSudokuSolver(fieldData)` on a fresh composable: one row of new cells per data row, each
      cell built from its coordinates and its datum (`None` for the empty string), with 9 as the
      largest value; then the first snapshot is pushed. */
  function InitSudokuSolver(data: seq<seq<Option<int>>>): (s: Solver)
    ensures |s.field| == |data|
    ensures forall i :: 0 <= i < |data| ==> |s.field[i]| == |data[i]|
    ensures forall i, j :: 0 <= i < |data| && 0 <= j < |data[i]| ==> s.field[i][j] == NewCell(i, j, data[i][j], FieldLength)
    ensures ValidField(s.field) <==>
      |data| == FieldLength && forall i :: 0 <= i < FieldLength ==> |data[i]| == FieldLength
    ensures |s.history.stack| == 1 && FieldState(s.history) == s.field
    ensures s.history.changeLog == [] && !s.isSolved
  {
    var f := seq(|data|, i requires 0 <= i < |data| =>
      seq(|data[i]|, j requires 0 <= j < |data[i]| => NewCell(i, j, data[i][j], FieldLength)));
    Solver(f, AddNewState(NewHistory(), f), false)
  }

  /** Puzzle data as the board hands it over: nine rows of nine entries, each empty or a digit. */
  predicate IsPuzzle(data: seq<seq<Option<int>>>) {
    && |data| == FieldLength
    && (forall i :: 0 <= i < FieldLength ==> |data[i]| == FieldLength)
    && (forall i, j :: 0 <= i < FieldLength && 0 <= j < |data[i]| && data[i][j].Some? ==> 1 <= data[i][j].value <= 9)
  }

  /** A solver freshly built from puzzle data meets the invariant every strategy run relies on. */
  lemma InitConsistent(data: seq<seq<Option<int>>>)
    requires IsPuzzle(data)
    ensures Consistent(InitSudokuSolver(data))
  {
    var s := InitSudokuSolver(data);
    forall q | InGrid(q) ensures WellFormed(At(s.field, q)) {
      NewCellWellFormed(q.row, q.col, data[q.row][q.col]);
    }
  }
}
