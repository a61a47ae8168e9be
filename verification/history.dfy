/**
 * The undo stack and change log of src/models/History.ts, with the change-log
 * record of src/models/ChangeLogLine.ts.
 *
 * The history is generic in the field type `F`: it only stores and returns
 * snapshots, so its laws do not depend on what a field is.
 */
module History {
  import opened Wrappers

  /** The `action` string of a log line: `'remove'` or `'update'`. */
  datatype Action = Remove | Update

  /** One change-log line. The source keeps a reference to the cell and a formatted
      description; the model keeps the cell's coordinates and the values involved. */
  datatype ChangeLogLine = ChangeLogLine(row: int, col: int, action: Action, values: seq<int>, basedOn: string)

  /** One stack entry: a copy of the field and of the change log at the time it was pushed. */
  datatype HistoryState<F> = HistoryState(fieldState: F, changeLog: seq<ChangeLogLine>)

  /** The snapshot stack (top = last element) and the live change log. */
  datatype History<F> = History(stack: seq<HistoryState<F>>, changeLog: seq<ChangeLogLine>)

  /** `new History()`: no snapshot, empty log. */
  function NewHistory<F>(): (h: History<F>)
    ensures |h.stack| == 0 && |h.changeLog| == 0
  {
    History([], [])
  }

  /** The getter `fieldState`: the field stored in the top snapshot. */
  function FieldState<F>(h: History<F>): F
    requires |h.stack| > 0
  {
    h.stack[|h.stack| - 1].fieldState
  }

  /** The getter `changeLogState`: the change log stored in the top snapshot. */
  function ChangeLogState<F>(h: History<F>): seq<ChangeLogLine>
    requires |h.stack| > 0
  {
    h.stack[|h.stack| - 1].changeLog
  }

  /** `saveToChangeLog`: append one line to the live log; the stack is not touched. */
  function SaveToChangeLog<F>(h: History<F>, line: ChangeLogLine): (h': History<F>)
    ensures h'.stack == h.stack
    ensures |h'.changeLog| == |h.changeLog| + 1
    ensures h.changeLog <= h'.changeLog
    ensures h'.changeLog[|h.changeLog|] == line
  {
    h.(changeLog := h.changeLog + [line])
  }

  /** `addNewState`: push a copy of `field` together with a copy of the live log. */
  function AddNewState<F>(h: History<F>, field: F): (h': History<F>)
    ensures |h'.stack| == |h.stack| + 1
    ensures h.stack <= h'.stack
    ensures FieldState(h') == field && ChangeLogState(h') == h.changeLog
    ensures h'.changeLog == h.changeLog
  {
    h.(stack := h.stack + [HistoryState(field, h.changeLog)])
  }

  /** `backToLastState`: pop the top snapshot unless it is the only one, then reset the
      live log to the stored log of the new top. On an empty stack the source throws. */
  function BackToLastState<F>(h: History<F>): (h': History<F>)
    requires |h.stack| > 0
    ensures |h.stack| > 1 ==> h'.stack == h.stack[..|h.stack| - 1]
    ensures |h.stack| == 1 ==> h'.stack == h.stack
    ensures |h'.stack| >= 1
    ensures h'.changeLog == ChangeLogState(h')
  {
    var stack := if |h.stack| > 1 then h.stack[..|h.stack| - 1] else h.stack;
    History(stack, stack[|stack| - 1].changeLog)
  }

  /** Pushing a snapshot and going back once restores the stack and resets the live log to
      the log stored in the original top snapshot. */
  lemma AddThenBack<F>(h: History<F>, field: F)
    requires |h.stack| > 0
    ensures BackToLastState(AddNewState(h, field)).stack == h.stack
    ensures BackToLastState(AddNewState(h, field)).changeLog == ChangeLogState(h)
  {
    var h' := AddNewState(h, field);
    assert h'.stack[..|h'.stack| - 1] == h.stack;
  }

  /** At the bottom of the stack going back keeps the stack and only resets the live log. */
  lemma BackAtBottom<F>(h: History<F>)
    requires |h.stack| == 1
    ensures BackToLastState(h) == h.(changeLog := h.stack[0].changeLog)
  {
  }

  /** A change-log undo that leaves out later lines: a step's lines logged after going back are gone
      again once that step is undone. */
  lemma UndoForgetsLines<F>(h: History<F>, line: ChangeLogLine, field: F)
    requires |h.stack| > 0
    ensures
      var h1 := BackToLastState(h);
      BackToLastState(AddNewState(SaveToChangeLog(h1, line), field)).changeLog == h1.changeLog
  {
    var h1 := BackToLastState(h);
    var h2 := AddNewState(SaveToChangeLog(h1, line), field);
    assert h2.stack[..|h2.stack| - 1] == h1.stack;
  }

  // ---------------------------------------------------------------------------
  // The change log as written: `backToLastState` hands the live log the very array stored in the
  // top snapshot, and `saveToChangeLog` pushes into that array in place.

  /** The history together with the snapshot, if any, whose stored log array is the live log. */
  datatype SharedHistory<F> = SharedHistory(stack: seq<HistoryState<F>>, changeLog: seq<ChangeLogLine>, sharedWith: Option<nat>)

  /** The live log and the snapshot it shares its array with hold the same lines. */
  ghost predicate SharingHolds<F>(h: SharedHistory<F>)
  {
    h.sharedWith.Some? ==> h.sharedWith.value < |h.stack| && h.stack[h.sharedWith.value].changeLog == h.changeLog
  }

  /** `new History()` as written: no snapshot, an empty log shared with none. */
  function NewSharedHistory<F>(): (h: SharedHistory<F>)
    ensures |h.stack| == 0 && h.changeLog == [] && SharingHolds(h)
  {
    SharedHistory([], [], None)
  }

  /** `saveToChangeLog` as written: the push lands in the live log and, through the shared array, in
      the snapshot it came from. */
  function SaveToChangeLogShared<F>(h: SharedHistory<F>, line: ChangeLogLine): (h': SharedHistory<F>)
    requires SharingHolds(h)
    ensures SharingHolds(h') && h'.sharedWith == h.sharedWith && |h'.stack| == |h.stack|
    ensures h'.changeLog == h.changeLog + [line]
    ensures forall i :: 0 <= i < |h.stack| && h.sharedWith != Some(i) ==> h'.stack[i] == h.stack[i]
    ensures forall i :: 0 <= i < |h.stack| && h.sharedWith == Some(i) ==>
      h'.stack[i] == HistoryState(h.stack[i].fieldState, h.stack[i].changeLog + [line])
  {
    var log := h.changeLog + [line];
    match h.sharedWith
    case None => h.(changeLog := log)
    case Some(i) => SharedHistory(h.stack[i := HistoryState(h.stack[i].fieldState, log)], log, h.sharedWith)
  }

  /** `addNewState` as written: the pushed snapshot holds copies, so it shares nothing. */
  function AddNewStateShared<F>(h: SharedHistory<F>, field: F): (h': SharedHistory<F>)
    requires SharingHolds(h)
    ensures SharingHolds(h') && h'.sharedWith == h.sharedWith && h'.changeLog == h.changeLog
    ensures h'.stack == h.stack + [HistoryState(field, h.changeLog)]
  {
    h.(stack := h.stack + [HistoryState(field, h.changeLog)])
  }

  /** `backToLastState` as written: pop unless at the bottom, then make the new top's stored array
      the live log. On an empty stack the source throws. */
  function BackToLastStateShared<F>(h: SharedHistory<F>): (h': SharedHistory<F>)
    requires |h.stack| > 0
    ensures |h.stack| > 1 ==> h'.stack == h.stack[..|h.stack| - 1]
    ensures |h.stack| == 1 ==> h'.stack == h.stack
    ensures |h'.stack| >= 1 && h'.sharedWith == Some(|h'.stack| - 1)
    ensures SharingHolds(h')
  {
    var stack := if |h.stack| > 1 then h.stack[..|h.stack| - 1] else h.stack;
    SharedHistory(stack, stack[|stack| - 1].changeLog, Some(|stack| - 1))
  }

  /** The stack and the live log of an as-written history, forgetting which array is shared. */
  function Unshared<F>(h: SharedHistory<F>): History<F>
  {
    History(h.stack, h.changeLog)
  }

  /** Pushing and going back act as the copying operations do; logging a line does too while no
      array is shared. The two histories part only when a line is logged after going back. */
  lemma SharedAgreesUnlessShared<F>(h: SharedHistory<F>, line: ChangeLogLine, field: F)
    requires SharingHolds(h)
    ensures Unshared(AddNewStateShared(h, field)) == AddNewState(Unshared(h), field)
    ensures |h.stack| > 0 ==> Unshared(BackToLastStateShared(h)) == BackToLastState(Unshared(h))
    ensures h.sharedWith.None? ==> Unshared(SaveToChangeLogShared(h, line)) == SaveToChangeLog(Unshared(h), line)
    ensures h.sharedWith.Some? && line !in h.changeLog ==>
      Unshared(SaveToChangeLogShared(h, line)) != SaveToChangeLog(Unshared(h), line)
  {
    if h.sharedWith.Some? && line !in h.changeLog {
      var i := h.sharedWith.value;
      assert SaveToChangeLogShared(h, line).stack[i].changeLog == h.changeLog + [line];
      assert SaveToChangeLog(Unshared(h), line).stack[i].changeLog == h.changeLog;
    }
  }

  /** As written, a line logged after going back is written into the top snapshot, and undoing the
      step that logged it brings the line back into the live log. */
  lemma UndoKeepsLinesShared<F>(h: SharedHistory<F>, line: ChangeLogLine, field: F)
    requires |h.stack| > 0
    ensures
      var h1 := BackToLastStateShared(h);
      var h2 := SaveToChangeLogShared(h1, line);
      && ChangeLogState(Unshared(h2)) == h1.changeLog + [line]
      && BackToLastStateShared(AddNewStateShared(h2, field)).changeLog == h1.changeLog + [line]
  {
    var h1 := BackToLastStateShared(h);
    var h2 := SaveToChangeLogShared(h1, line);
    var h3 := AddNewStateShared(h2, field);
    assert h3.stack[..|h3.stack| - 1] == h2.stack;
  }

  /** A concrete run: build, take a step that logs a line and push, undo, take a step that logs
      another line and push, undo. As written the live log holds the undone step's line. */
  lemma UndoAfterUndoShared(a: ChangeLogLine, b: ChangeLogLine)
    ensures
      var s0 := AddNewStateShared(NewSharedHistory<int>(), 0);
      var s1 := BackToLastStateShared(AddNewStateShared(SaveToChangeLogShared(s0, a), 1));
      var s2 := BackToLastStateShared(AddNewStateShared(SaveToChangeLogShared(s1, b), 2));
      s2.changeLog == [b]
  {
    var s0 := AddNewStateShared(NewSharedHistory<int>(), 0);
    var t0 := AddNewStateShared(SaveToChangeLogShared(s0, a), 1);
    assert t0.stack[..1] == s0.stack;
    UndoKeepsLinesShared(t0, b, 2);
  }

  /** The same run on the copying history: the live log is empty again, as before either step. */
  lemma UndoAfterUndo(a: ChangeLogLine, b: ChangeLogLine)
    ensures
      var h0 := AddNewState(NewHistory<int>(), 0);
      var h1 := BackToLastState(AddNewState(SaveToChangeLog(h0, a), 1));
      var h2 := BackToLastState(AddNewState(SaveToChangeLog(h1, b), 2));
      h2.changeLog == []
  {
    var h0 := AddNewState(NewHistory<int>(), 0);
    var u0 := AddNewState(SaveToChangeLog(h0, a), 1);
    assert u0.stack[..1] == h0.stack;
    UndoForgetsLines(u0, b, 2);
  }
}
