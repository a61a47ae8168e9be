/**
 * One grid cell (src/models/Cell.ts): coordinates, an optional committed value,
 * an ordered candidate list and the preset flag.
 *
 * The source's cell logs its own mutations through a `saveToHistory` callback.
 * Here a mutation returns the new cell together with the log line it would have
 * passed to that callback, and the caller appends the line.
 */
module Cells {
  import opened Wrappers
  import opened Arrays
  import opened History

  datatype Cell = Cell(row: int, col: int, value: Option<int>, candidates: seq<int>, preset: bool)

  /** A mutated cell and the change-log line it emitted, if any. */
  datatype Mutation = Mutation(cell: Cell, logged: Option<ChangeLogLine>)

  /** JavaScript's `!currentNumber` on `number | undefined`: true for `undefined` and for 0. */
  predicate Falsy(v: Option<int>) {
    v.None? || v.value == 0
  }

  /** A cell as the solver keeps it: a committed digit has no candidates, a preset cell
      has a value, and every candidate is a digit. */
  predicate WellFormed(c: Cell) {
    && (c.value.Some? ==> 1 <= c.value.value <= 9 && c.candidates == [])
    && (c.preset ==> c.value.Some?)
    && (forall v :: v in c.candidates ==> 1 <= v <= 9)
  }

  /** `new Cell(rowIdx, columnIdx, value, maxVal, ...)`; `value` is `None` for the empty string
      and the parsed number otherwise. */
  function NewCell(row: int, col: int, value: Option<int>, maxVal: nat): (c: Cell)
    ensures c.row == row && c.col == col
    ensures value.None? ==> !c.preset && c.value.None? && |c.candidates| == maxVal
    ensures value.None? ==> forall i :: 0 <= i < maxVal ==> c.candidates[i] == i + 1
    ensures value.Some? ==> c.preset && c.value == value && c.candidates == []
  {
    if value.Some? then Cell(row, col, value, [], true)
    else Cell(row, col, None, seq(maxVal, i => i + 1), false)
  }

  /** Constructing with a digit or with the empty string and 9 candidates gives a well-formed cell. */
  lemma NewCellWellFormed(row: int, col: int, value: Option<int>)
    requires value.Some? ==> 1 <= value.value <= 9
    ensures WellFormed(NewCell(row, col, value, 9))
  {
    var c := NewCell(row, col, value, 9);
    forall v | v in c.candidates ensures 1 <= v <= 9 {
      var i :| 0 <= i < |c.candidates| && c.candidates[i] == v;
    }
  }

  /** The getter `isEmpty`: no committed value. */
  predicate IsEmpty(c: Cell) {
    c.value.None?
  }

  /** The getter `isReadyToUpdateValue`: no (truthy) value and exactly one candidate. */
  predicate IsReadyToUpdateValue(c: Cell) {
    Falsy(c.value) && |c.candidates| == 1
  }

  /** `isEqual`: same position, same value and the same candidate sequence, in order. */
  function IsEqual(a: Cell, b: Cell): (r: bool)
    ensures r <==> a.(preset := b.preset) == b
  {
    && a.row == b.row
    && a.col == b.col
    && a.value == b.value
    && |a.candidates| == |b.candidates|
    && (forall i :: 0 <= i < |a.candidates| ==> a.candidates[i] == b.candidates[i])
  }

  /** `isEqual` is reflexive. */
  lemma IsEqualReflexive(a: Cell)
    ensures IsEqual(a, a)
  {
  }

  /** Reference definition of what `removeOccupiedValues` does to the cell: an unset cell
      keeps, in order, the candidates that are not occupied; a set cell is left alone. */
  function Pruned(c: Cell, occupied: seq<int>): (r: Cell)
    ensures r.row == c.row && r.col == c.col && r.value == c.value && r.preset == c.preset
    ensures forall x :: x in r.candidates <==> x in c.candidates && (Falsy(c.value) ==> x !in occupied)
    ensures |r.candidates| <= |c.candidates|
  {
    if Falsy(c.value) then c.(candidates := Filter(c.candidates, NotIn(occupied))) else c
  }

  /** Pruning twice with the same numbers is pruning once. */
  lemma PrunedIdempotent(c: Cell, occupied: seq<int>)
    ensures Pruned(Pruned(c, occupied), occupied) == Pruned(c, occupied)
  {
    if Falsy(c.value) {
      FilterIdempotent(c.candidates, NotIn(occupied));
    }
  }

  /** Pruning by `a` and then by `b` is pruning by both at once. */
  lemma PrunedTwice(c: Cell, a: seq<int>, b: seq<int>)
    ensures Pruned(Pruned(c, a), b) == Pruned(c, a + b)
  {
    if Falsy(c.value) {
      FilterNotInConcat(c.candidates, a, b);
    }
  }

  /** Pruning numbers the cell does not hold leaves it as it is. */
  lemma PrunedAbsent(c: Cell, occupied: seq<int>)
    requires forall x :: x in occupied ==> x !in c.candidates
    ensures Pruned(c, occupied) == c
  {
    if Falsy(c.value) {
      assert forall x :: x in c.candidates ==> NotIn(occupied)(x);
      FilterKeepsAll(c.candidates, NotIn(occupied));
    }
  }

  /** `removeOccupiedValues(occupiedNumbers, basedOn)`. */
  function RemoveOccupiedValues(c: Cell, occupied: seq<int>, basedOn: string): (r: Mutation)
    ensures r.cell == Pruned(c, occupied)
    ensures r.logged.Some? <==> Falsy(c.value) && exists x :: x in c.candidates && x in occupied
    ensures r.logged.Some? ==>
      && r.logged.value.row == c.row && r.logged.value.col == c.col
      && r.logged.value.action == Remove && r.logged.value.basedOn == basedOn
      && NoDups(r.logged.value.values)
      && (forall x :: x in r.logged.value.values <==> x in c.candidates && x in occupied)
  {
    if Falsy(c.value) then
      var valuesToRemove := Unique(Intersection(occupied, c.candidates));
      assert forall x :: x in c.candidates ==> NotIn(valuesToRemove)(x) == NotIn(occupied)(x);
      FilterAgrees(c.candidates, NotIn(valuesToRemove), NotIn(occupied));
      if |valuesToRemove| > 0 then
        var w := valuesToRemove[0];
        assert w in c.candidates && w in occupied;
        Mutation(c.(candidates := Filter(c.candidates, NotIn(valuesToRemove))),
                 Some(ChangeLogLine(c.row, c.col, Remove, valuesToRemove, basedOn)))
      else
        assert forall x :: x in c.candidates ==> NotIn(occupied)(x);
        FilterKeepsAll(c.candidates, NotIn(occupied));
        Mutation(c, None)
    else
      Mutation(c, None)
  }

  /** Repeating `removeOccupiedValues` with the same numbers changes nothing and logs nothing. */
  lemma RemoveOccupiedValuesIdempotent(c: Cell, occupied: seq<int>, basedOn: string)
    ensures var once := RemoveOccupiedValues(c, occupied, basedOn).cell;
            RemoveOccupiedValues(once, occupied, basedOn) == Mutation(once, None)
  {
    PrunedIdempotent(c, occupied);
  }

  /** Reference definition of what `setPossibleValues` does to the cell: the candidates become
      `values` unless they already hold the same set of numbers. */
  function Replaced(c: Cell, values: seq<int>): (r: Cell)
    ensures r.row == c.row && r.col == c.col && r.value == c.value && r.preset == c.preset
    ensures SameElements(r.candidates, values)
    ensures r == c || r.candidates == values
  {
    if SameElements(c.candidates, values) then c else c.(candidates := values)
  }

  /** Replacing twice with the same values is replacing once. */
  lemma ReplacedIdempotent(c: Cell, values: seq<int>)
    ensures Replaced(Replaced(c, values), values) == Replaced(c, values)
  {
  }

  /** `setPossibleValues(values, basedOn)`; note that, as in the source, it does not look at the value. */
  function SetPossibleValues(c: Cell, values: seq<int>, basedOn: string): (r: Mutation)
    ensures r.cell == Replaced(c, values)
    ensures r.logged.Some? <==> !SameElements(c.candidates, values)
    ensures r.logged.Some? ==>
      && r.logged.value.row == c.row && r.logged.value.col == c.col
      && r.logged.value.action == Remove && r.logged.value.basedOn == basedOn
      && (forall x :: x in r.logged.value.values <==> (x in c.candidates) != (x in values))
  {
    var valuesToRemove := SymmetricDifference(c.candidates, values);
    if |valuesToRemove| > 0 then
      Mutation(c.(candidates := values), Some(ChangeLogLine(c.row, c.col, Remove, valuesToRemove, basedOn)))
    else
      Mutation(c, None)
  }

  /** A mere reordering of the same candidates is not a change: nothing is replaced or logged. */
  lemma SetPossibleValuesReorder(c: Cell, values: seq<int>, basedOn: string)
    requires SameElements(c.candidates, values)
    ensures SetPossibleValues(c, values, basedOn) == Mutation(c, None)
  {
  }

  /** Repeating `setPossibleValues` with the same values changes nothing and logs nothing. */
  lemma SetPossibleValuesIdempotent(c: Cell, values: seq<int>, basedOn: string)
    ensures var once := SetPossibleValues(c, values, basedOn).cell;
            SetPossibleValues(once, values, basedOn) == Mutation(once, None)
  {
  }

  /** `updateValue`: commit the first candidate (`undefined` when there is none), clear the
      candidates and log an `update` line tagged `'obvious singles'`. */
  function UpdateValue(c: Cell): (r: Mutation)
    ensures r.cell.row == c.row && r.cell.col == c.col && r.cell.preset == c.preset
    ensures r.cell.candidates == []
    ensures IsReadyToUpdateValue(c) ==> r.cell.value == Some(c.candidates[0])
    ensures r.logged.Some? && r.logged.value.action == Update && r.logged.value.basedOn == "obvious singles"
    ensures r.logged.value.row == c.row && r.logged.value.col == c.col
    ensures r.cell.value.Some? ==> r.logged.value.values == [r.cell.value.value]
  {
    var v := if |c.candidates| > 0 then Some(c.candidates[0]) else None;
    Mutation(c.(value := v, candidates := []),
             Some(ChangeLogLine(c.row, c.col, Update, if v.Some? then [v.value] else [], "obvious singles")))
  }

  /** `setValues(currentNumber, possibleNumbers)`: overwrite value and candidates; nothing is logged,
      so the result is a bare cell. Position and preset flag are kept. */
  function SetValues(c: Cell, value: Option<int>, candidates: seq<int>): (r: Cell)
    ensures r.row == c.row && r.col == c.col && r.preset == c.preset
    ensures r.value == value && r.candidates == candidates
  {
    c.(value := value, candidates := candidates)
  }

  /** How a cell may evolve under the solver: a set cell never changes, candidates are only
      ever dropped, and a value can only be committed from the candidates, clearing them. */
  predicate Evolves(a: Cell, b: Cell) {
    && a.row == b.row && a.col == b.col && a.preset == b.preset
    && (a.value.Some? ==> b == a)
    && (forall x :: x in b.candidates ==> x in a.candidates)
    && (b.value != a.value ==> a.value.None? && b.value.Some? && b.value.value in a.candidates && b.candidates == [])
  }

  /** `Evolves` without committing a value: only candidates are dropped. */
  predicate Narrows(a: Cell, b: Cell) {
    Evolves(a, b) && b.value == a.value
  }

  /** The evolution relation is transitive and keeps cells well formed. */
  lemma EvolvesTransitive(a: Cell, b: Cell, c: Cell)
    requires Evolves(a, b) && Evolves(b, c)
    ensures Evolves(a, c)
  {
    if c.value != a.value {
      if b.value == a.value {
        assert b.value.None? && c.value.Some?;
        var v := c.value.value;
        assert v in b.candidates;
        assert v in a.candidates;
      } else {
        assert c == b;
      }
    }
  }

  lemma EvolvesWellFormed(a: Cell, b: Cell)
    requires WellFormed(a) && Evolves(a, b)
    ensures WellFormed(b)
  {
  }

  /** Removing occupied values from a well-formed cell only narrows it. */
  lemma PrunedNarrows(c: Cell, occupied: seq<int>)
    requires WellFormed(c)
    ensures Narrows(c, Pruned(c, occupied)) && WellFormed(Pruned(c, occupied))
  {
  }

  /** Replacing the candidates of a cell by some of its own candidates only narrows it; a set cell
      has no candidates, so it is left alone. */
  lemma ReplacedNarrows(c: Cell, values: seq<int>)
    requires WellFormed(c)
    requires forall x :: x in values ==> x in c.candidates
    ensures Narrows(c, Replaced(c, values)) && WellFormed(Replaced(c, values))
  {
    if c.value.Some? {
      assert c.candidates == [];
      assert forall x :: x !in values;
      assert SameElements(c.candidates, values);
    }
  }

  /** When the cell is ready, `updateValue` commits its sole candidate: an evolution of the cell. */
  lemma UpdateValueEvolves(c: Cell)
    requires WellFormed(c) && IsReadyToUpdateValue(c)
    ensures Evolves(c, UpdateValue(c).cell) && WellFormed(UpdateValue(c).cell)
    ensures UpdateValue(c).cell.value == Some(c.candidates[0])
  {
  }
}
