/**
 * The Obvious-N and Hidden-N strategies of src/composables/sudokuSolver.ts:
 * `checkForObviousNs` and `checkForHiddenNs`. Both look at the row of the
 * cell, then its column, then its block, and act on the first unit where
 * the detector of src/models/HiddenNs.ts finds something.
 */
module Units {
  import opened Wrappers
  import opened Arrays
  import opened Cells
  import opened HiddenNs
  import opened Grid

  /** JavaScript's `${n}` for an integer. */
  function NumberString(n: int): (s: string)
    ensures |s| > 0
  {
    if n < 0 then "-" + NatString(-n) else NatString(n)
  }

  function NatString(n: nat): (s: string)
    ensures |s| > 0
  {
    if n < 10 then [Digit(n)] else NatString(n / 10) + [Digit(n % 10)]
  }

  function Digit(d: nat): char
    requires d < 10
  {
    ('0' as int + d) as char
  }

  /** The positions of the cells a detector reported. */
  function PositionsOf(cells: seq<Cell>): (ps: seq<Pos>)
    ensures |ps| == |cells|
    ensures forall k :: 0 <= k < |cells| ==> ps[k] == PosOf(cells[k])
  {
    seq(|cells|, k requires 0 <= k < |cells| => PosOf(cells[k]))
  }

  /** `f'` agrees with `f` outside the listed positions. */
  ghost predicate Within(f: Field, f': Field, ps: seq<Pos>)
    requires ValidField(f) && ValidField(f')
  {
    forall q :: InGrid(q) && q !in ps ==> At(f', q) == At(f, q)
  }

  /** The cells a detector reports for `p` against `peers` are `p` itself and cells of `peers`, as they
      stand in the field. */
  lemma ReportedCells(f: Field, p: Pos, peers: seq<Pos>, cells: seq<Cell>)
    requires ValidField(f) && InGrid(p) && AllInGrid(peers)
    requires |cells| > 0 && cells[0] == At(f, p)
    requires forall k :: 1 <= k < |cells| ==> cells[k] in CellsOf(f, peers)
    ensures AllInGrid(PositionsOf(cells))
    ensures forall k :: 0 <= k < |cells| ==> At(f, PosOf(cells[k])) == cells[k]
    ensures forall q :: q in PositionsOf(cells) ==> q == p || q in peers
  {
    var ps := PositionsOf(cells);
    forall k | 0 <= k < |cells| ensures InGrid(ps[k]) && At(f, ps[k]) == cells[k] && (ps[k] == p || ps[k] in peers) {
      if k > 0 {
        var i :| 0 <= i < |peers| && CellsOf(f, peers)[i] == cells[k];
        assert ps[k] == peers[i];
      }
    }
  }

  // ---------------------------------------------------------------------------
  // Hidden N

  /** The detector run on one unit: `getCellHiddenNs(cell, cellsToCheck, n)`, where the cells to check
      are the unit's unset cells other than `p` of which `p` or the cell has at least `n` candidates. */
  function HiddenInUnit(f: Field, p: Pos, unit: seq<Pos>, n: int): (r: Option<Found>)
    requires ValidField(f) && InGrid(p) && AllInGrid(unit)
    ensures n != 1 && n != 2 && n != 3 ==> r.None?
    ensures r.Some? ==> HiddenResult(At(f, p), CellsOf(f, Select(f, unit, p, n, true)), n, r.value)
  {
    GetCellHiddenNs(At(f, p), CellsOf(f, Select(f, unit, p, n, true)), n)
  }

  /** `f'` is `f` with every reported cell's candidates replaced by the hidden numbers (`Replaced`:
      an equal set is kept as listed), and no other cell changed. */
  ghost predicate HiddenWritten(f: Field, f': Field, h: Found)
    requires ValidField(f) && ValidField(f')
  {
    && AllInGrid(PositionsOf(h.cells))
    && (forall k :: 0 <= k < |h.cells| ==> At(f', PosOf(h.cells[k])) == Replaced(At(f, PosOf(h.cells[k])), h.numbers))
    && (forall q :: InGrid(q) && q !in PositionsOf(h.cells) ==> At(f', q) == At(f, q))
  }

  /** Give every reported cell exactly the reported numbers as candidates (`setPossibleValues`,
      tagged `hidden n`). Only reported cells change; with a well-formed field this only narrows. */
  function WriteHidden(b: Board, p: Pos, unit: seq<Pos>, n: int, h: Found): (r: Board)
    requires ValidField(b.field) && InGrid(p) && AllInGrid(unit)
    requires HiddenResult(At(b.field, p), CellsOf(b.field, Select(b.field, unit, p, n, true)), n, h)
    ensures ValidField(r.field) && b.log <= r.log
    ensures HiddenWritten(b.field, r.field, h)
    ensures p in unit ==> Within(b.field, r.field, unit)
    ensures WellFormedField(b.field) ==> Narrowed(b.field, r.field) && WellFormedField(r.field)
  {
    var peers := Select(b.field, unit, p, n, true);
    ReportedCells(b.field, p, peers, h.cells);
    var ps := PositionsOf(h.cells);
    var r := ReplaceAll(b, ps, h.numbers, "hidden " + NumberString(n));
    assert forall k :: 0 <= k < |h.cells| ==> ps[k] in ps;
    WriteHiddenNarrows(b, p, unit, n, h, "hidden " + NumberString(n));
    r
  }

  lemma WriteHiddenNarrows(b: Board, p: Pos, unit: seq<Pos>, n: int, h: Found, tag: string)
    requires ValidField(b.field) && InGrid(p) && AllInGrid(unit)
    requires HiddenResult(At(b.field, p), CellsOf(b.field, Select(b.field, unit, p, n, true)), n, h)
    requires AllInGrid(PositionsOf(h.cells))
    requires forall k :: 0 <= k < |h.cells| ==> At(b.field, PosOf(h.cells[k])) == h.cells[k]
    ensures WellFormedField(b.field) ==>
      Narrowed(b.field, ReplaceAll(b, PositionsOf(h.cells), h.numbers, tag).field) &&
      WellFormedField(ReplaceAll(b, PositionsOf(h.cells), h.numbers, tag).field)
  {
    var ps := PositionsOf(h.cells);
    if WellFormedField(b.field) {
      forall q, x | q in ps && x in h.numbers ensures x in At(b.field, q).candidates {
        var k :| 0 <= k < |ps| && ps[k] == q;
      }
      ReplaceAllNarrows(b, ps, h.numbers, tag);
    }
  }

  /** What the detector promises about a unit's hidden N, if it found one. */
  predicate HiddenFound(b: Board, p: Pos, unit: seq<Pos>, n: int, found: Option<Found>)
    requires ValidField(b.field) && InGrid(p) && AllInGrid(unit)
  {
    found.Some? ==> HiddenResult(At(b.field, p), CellsOf(b.field, Select(b.field, unit, p, n, true)), n, found.value)
  }

  /** The unit `checkForHiddenNs` and `checkForObviousNs` act on: the row when the detector found
      something there, else the column when it found something there, else the block. */
  function ChosenUnit(p: Pos, inRow: Option<Found>, inColumn: Option<Found>): (unit: seq<Pos>)
    requires InGrid(p)
    ensures AllInGrid(unit) && p in unit
  {
    assert RowPositions(p.row)[p.col] == p && ColumnPositions(p.col)[p.row] == p;
    if inRow.Some? then RowPositions(p.row) else if inColumn.Some? then ColumnPositions(p.col) else SquarePositions(p)
  }

  /** The effect of `checkForHiddenNs` on the unit it acts on, given what the detector found there:
      nothing outside the unit changes. */
  function HiddenUnitEffect(b: Board, p: Pos, n: int, unit: seq<Pos>, found: Option<Found>): (r: Board)
    requires ValidField(b.field) && InGrid(p) && AllInGrid(unit) && p in unit
    requires HiddenFound(b, p, unit, n, found)
    ensures ValidField(r.field) && b.log <= r.log
    ensures Within(b.field, r.field, unit)
    ensures found.Some? ==> HiddenWritten(b.field, r.field, found.value)
    ensures found.None? ==> r == b
    ensures WellFormedField(b.field) ==> Narrowed(b.field, r.field) && WellFormedField(r.field)
  {
    if found.Some? then WriteHidden(b, p, unit, n, found.value) else b
  }

  /** The effect of `checkForHiddenNs` given what the detector found in the row, the column and the
      block: the first unit with a find is the only one that changes. */
  function HiddenEffect(b: Board, p: Pos, n: int, inRow: Option<Found>, inColumn: Option<Found>, inSquare: Option<Found>): (r: Board)
    requires ValidField(b.field) && InGrid(p)
    requires HiddenFound(b, p, RowPositions(p.row), n, inRow)
    requires HiddenFound(b, p, ColumnPositions(p.col), n, inColumn)
    requires HiddenFound(b, p, SquarePositions(p), n, inSquare)
    ensures ValidField(r.field) && b.log <= r.log
    ensures inRow.Some? ==> Within(b.field, r.field, RowPositions(p.row))
    ensures inRow.None? && inColumn.Some? ==> Within(b.field, r.field, ColumnPositions(p.col))
    ensures inRow.None? && inColumn.None? ==> Within(b.field, r.field, SquarePositions(p))
    ensures inRow.None? && inColumn.None? && inSquare.None? ==> r == b
    ensures inRow.Some? ==> HiddenWritten(b.field, r.field, inRow.value)
    ensures inRow.None? && inColumn.Some? ==> HiddenWritten(b.field, r.field, inColumn.value)
    ensures inRow.None? && inColumn.None? && inSquare.Some? ==> HiddenWritten(b.field, r.field, inSquare.value)
    ensures WellFormedField(b.field) ==> Narrowed(b.field, r.field) && WellFormedField(r.field)
  {
    var found := if inRow.Some? then inRow else if inColumn.Some? then inColumn else inSquare;
    HiddenUnitEffect(b, p, n, ChosenUnit(p, inRow, inColumn), found)
  }

  /** `checkForHiddenNs(cell, n)`. The first unit (row, then column, then block) in which a hidden N
      is found is the only one that changes; when there is none, or `n` is not 1, 2 or 3, nothing
      changes. */
  function CheckForHiddenNs(b: Board, p: Pos, n: int): (r: Board)
    requires ValidField(b.field) && InGrid(p)
    ensures ValidField(r.field) && b.log <= r.log
    ensures
      var row, column, square := RowPositions(p.row), ColumnPositions(p.col), SquarePositions(p);
      var inRow, inColumn, inSquare := HiddenInUnit(b.field, p, row, n), HiddenInUnit(b.field, p, column, n), HiddenInUnit(b.field, p, square, n);
      && (inRow.Some? ==> Within(b.field, r.field, row))
      && (inRow.None? && inColumn.Some? ==> Within(b.field, r.field, column))
      && (inRow.None? && inColumn.None? ==> Within(b.field, r.field, square))
      && (inRow.None? && inColumn.None? && inSquare.None? ==> r == b)
      && (inRow.Some? ==> HiddenWritten(b.field, r.field, inRow.value))
      && (inRow.None? && inColumn.Some? ==> HiddenWritten(b.field, r.field, inColumn.value))
      && (inRow.None? && inColumn.None? && inSquare.Some? ==> HiddenWritten(b.field, r.field, inSquare.value))
    ensures n != 1 && n != 2 && n != 3 ==> r == b
    ensures WellFormedField(b.field) ==> Narrowed(b.field, r.field) && WellFormedField(r.field)
  {
    HiddenEffect(b, p, n,
      HiddenInUnit(b.field, p, RowPositions(p.row), n),
      HiddenInUnit(b.field, p, ColumnPositions(p.col), n),
      HiddenInUnit(b.field, p, SquarePositions(p), n))
  }

  // ---------------------------------------------------------------------------
  // Obvious N

  /** The detector run on one unit: `getCellObviousNs(cell, cellsToCheck, n)` over the unit's unset
      cells other than `p`. */
  function ObviousInUnit(f: Field, p: Pos, unit: seq<Pos>, n: int): (r: Option<Found>)
    requires ValidField(f) && InGrid(p) && AllInGrid(unit)
    ensures n != 2 && n != 3 ==> r.None?
    ensures r.Some? ==> ObviousResult(At(f, p), CellsOf(f, Select(f, unit, p, 0, true)), r.value)
  {
    GetCellObviousNs(At(f, p), CellsOf(f, Select(f, unit, p, 0, true)), n)
  }

  /** The positions of `ps` that are not listed in `excluded` (`!found.cells.includes(otherCell)`). */
  function Outside(ps: seq<Pos>, excluded: seq<Pos>): (r: seq<Pos>)
    ensures forall q :: q in r <==> q in ps && q !in excluded
    ensures AllInGrid(ps) ==> AllInGrid(r)
    decreases |ps|
  {
    if ps == [] then []
    else
      assert forall q :: q in ps <==> q == ps[0] || q in ps[1..];
      (if ps[0] !in excluded then [ps[0]] else []) + Outside(ps[1..], excluded)
  }

  /** `f'` is `f` with the reported cells and the set cells of the unit kept, and every other unset
      cell of the unit but `p` having lost exactly the found numbers. */
  ghost predicate ObviousEliminated(f: Field, f': Field, p: Pos, unit: seq<Pos>, h: Found)
    requires ValidField(f) && ValidField(f')
  {
    && AllInGrid(PositionsOf(h.cells))
    && (forall q :: q in PositionsOf(h.cells) ==> At(f', q) == At(f, q))
    && (forall q :: InGrid(q) && q in unit && At(f, q).value.Some? ==> At(f', q) == At(f, q))
    && (forall q :: InGrid(q) && q in unit && q != p && At(f, q).value.None? && q !in PositionsOf(h.cells) ==>
          At(f', q) == Pruned(At(f, q), h.numbers))
  }

  /** Remove the found numbers from every unset cell of the unit other than `p` that was not reported
      (`removeOccupiedValues`, tagged `obvious n`). The reported cells, `p` among them, and the set
      cells are untouched; every other unset cell of the unit loses exactly the found numbers. */
  function EliminateObvious(b: Board, p: Pos, unit: seq<Pos>, n: int, h: Found): (r: Board)
    requires ValidField(b.field) && InGrid(p) && AllInGrid(unit)
    requires ObviousResult(At(b.field, p), CellsOf(b.field, Select(b.field, unit, p, 0, true)), h)
    ensures ValidField(r.field) && b.log <= r.log
    ensures At(r.field, p) == At(b.field, p)
    ensures ObviousEliminated(b.field, r.field, p, unit, h)
    ensures Within(b.field, r.field, unit)
    ensures WellFormedField(b.field) ==> Narrowed(b.field, r.field) && WellFormedField(r.field)
  {
    var peers := Select(b.field, unit, p, 0, true);
    ReportedCells(b.field, p, peers, h.cells);
    assert p in PositionsOf(h.cells) by {
      assert PositionsOf(h.cells)[0] == p;
    }
    var targets := Outside(peers, PositionsOf(h.cells));
    var r := RemoveAll(b, targets, h.numbers, "obvious " + NumberString(n));
    assert WellFormedField(b.field) ==> Narrowed(b.field, r.field) && WellFormedField(r.field) by {
      if WellFormedField(b.field) {
        RemoveAllNarrows(b, targets, h.numbers, "obvious " + NumberString(n));
      }
    }
    r
  }

  /** `checkForObviousNs(cell, 1)`: commit the sole candidate of a ready cell; only that cell changes. */
  function ObviousSingle(b: Board, p: Pos): (r: Board)
    requires ValidField(b.field) && InGrid(p)
    ensures ValidField(r.field) && b.log <= r.log
    ensures forall q :: InGrid(q) && q != p ==> At(r.field, q) == At(b.field, q)
    ensures IsReadyToUpdateValue(At(b.field, p)) ==>
      At(r.field, p).value == Some(At(b.field, p).candidates[0]) && At(r.field, p).candidates == []
    ensures !IsReadyToUpdateValue(At(b.field, p)) ==> r == b
    ensures WellFormedField(b.field) ==> Evolved(b.field, r.field) && WellFormedField(r.field)
  {
    if IsReadyToUpdateValue(At(b.field, p)) then
      var r := Commit(b, p);
      assert WellFormedField(b.field) ==> Evolved(b.field, r.field) && WellFormedField(r.field) by {
        if WellFormedField(b.field) {
          UpdateValueEvolves(At(b.field, p));
          EvolvedWellFormed(b.field, r.field);
        }
      }
      r
    else b
  }

  /** What the detector promises about a unit's obvious N, if it found one. */
  predicate ObviousFound(b: Board, p: Pos, unit: seq<Pos>, found: Option<Found>)
    requires ValidField(b.field) && InGrid(p) && AllInGrid(unit)
  {
    found.Some? ==> ObviousResult(At(b.field, p), CellsOf(b.field, Select(b.field, unit, p, 0, true)), found.value)
  }

  /** The effect of `checkForObviousNs` for `n > 1` on the unit it acts on, given what the detector
      found there: the cell itself is kept and nothing outside the unit changes. */
  function ObviousUnitEffect(b: Board, p: Pos, n: int, unit: seq<Pos>, found: Option<Found>): (r: Board)
    requires ValidField(b.field) && InGrid(p) && AllInGrid(unit)
    requires ObviousFound(b, p, unit, found)
    ensures ValidField(r.field) && b.log <= r.log
    ensures At(r.field, p) == At(b.field, p)
    ensures Within(b.field, r.field, unit)
    ensures found.Some? ==> ObviousEliminated(b.field, r.field, p, unit, found.value)
    ensures found.None? ==> r == b
    ensures WellFormedField(b.field) ==> Narrowed(b.field, r.field) && WellFormedField(r.field)
  {
    if found.Some? then EliminateObvious(b, p, unit, n, found.value) else b
  }

  /** The effect of `checkForObviousNs` for `n > 1` given what the detector found in the row, the
      column and the block: the cell itself is kept and the first unit with a find is the only one
      that changes. */
  function ObviousEffect(b: Board, p: Pos, n: int, inRow: Option<Found>, inColumn: Option<Found>, inSquare: Option<Found>): (r: Board)
    requires ValidField(b.field) && InGrid(p)
    requires ObviousFound(b, p, RowPositions(p.row), inRow)
    requires ObviousFound(b, p, ColumnPositions(p.col), inColumn)
    requires ObviousFound(b, p, SquarePositions(p), inSquare)
    ensures ValidField(r.field) && b.log <= r.log
    ensures At(r.field, p) == At(b.field, p)
    ensures inRow.Some? ==> Within(b.field, r.field, RowPositions(p.row))
    ensures inRow.None? && inColumn.Some? ==> Within(b.field, r.field, ColumnPositions(p.col))
    ensures inRow.None? && inColumn.None? ==> Within(b.field, r.field, SquarePositions(p))
    ensures inRow.None? && inColumn.None? && inSquare.None? ==> r == b
    ensures inRow.Some? ==> ObviousEliminated(b.field, r.field, p, RowPositions(p.row), inRow.value)
    ensures inRow.None? && inColumn.Some? ==> ObviousEliminated(b.field, r.field, p, ColumnPositions(p.col), inColumn.value)
    ensures inRow.None? && inColumn.None? && inSquare.Some? ==> ObviousEliminated(b.field, r.field, p, SquarePositions(p), inSquare.value)
    ensures WellFormedField(b.field) ==> Narrowed(b.field, r.field) && WellFormedField(r.field)
  {
    var found := if inRow.Some? then inRow else if inColumn.Some? then inColumn else inSquare;
    ObviousUnitEffect(b, p, n, ChosenUnit(p, inRow, inColumn), found)
  }

  /** `checkForObviousNs(cell, n)`. For `n == 1` see `ObviousSingle`. Otherwise the cell itself never
      changes, and the first unit (row, then column, then block) with an obvious N is the only one
      that changes; when there is none, or `n` is not 2 or 3, nothing changes. */
  function CheckForObviousNs(b: Board, p: Pos, n: int): (r: Board)
    requires ValidField(b.field) && InGrid(p)
    ensures ValidField(r.field) && b.log <= r.log
    ensures n == 1 ==> r == ObviousSingle(b, p)
    ensures n != 1 ==> At(r.field, p) == At(b.field, p)
    ensures n != 1 ==>
      var row, column, square := RowPositions(p.row), ColumnPositions(p.col), SquarePositions(p);
      var inRow, inColumn, inSquare := ObviousInUnit(b.field, p, row, n), ObviousInUnit(b.field, p, column, n), ObviousInUnit(b.field, p, square, n);
      && (inRow.Some? ==> Within(b.field, r.field, row))
      && (inRow.None? && inColumn.Some? ==> Within(b.field, r.field, column))
      && (inRow.None? && inColumn.None? ==> Within(b.field, r.field, square))
      && (inRow.None? && inColumn.None? && inSquare.None? ==> r == b)
      && (inRow.Some? ==> ObviousEliminated(b.field, r.field, p, row, inRow.value))
      && (inRow.None? && inColumn.Some? ==> ObviousEliminated(b.field, r.field, p, column, inColumn.value))
      && (inRow.None? && inColumn.None? && inSquare.Some? ==> ObviousEliminated(b.field, r.field, p, square, inSquare.value))
    ensures n != 1 && n != 2 && n != 3 ==> r == b
    ensures WellFormedField(b.field) ==> Evolved(b.field, r.field) && WellFormedField(r.field)
    ensures WellFormedField(b.field) && n != 1 ==> Narrowed(b.field, r.field)
  {
    if n == 1 then ObviousSingle(b, p)
    else
      ObviousEffect(b, p, n,
        ObviousInUnit(b.field, p, RowPositions(p.row), n),
        ObviousInUnit(b.field, p, ColumnPositions(p.col), n),
        ObviousInUnit(b.field, p, SquarePositions(p), n))
  }
}
