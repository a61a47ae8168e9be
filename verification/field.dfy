/**
 * The 9×9 field of src/composables/sudokuSolver.ts and the small utilities the
 * strategies share: block anchors, the cell-gathering loops, writing a mutated
 * cell back, `isSolved` and `getLastUpdatedCells`.
 *
 * The source keeps lists of `Cell` references and mutates the objects; the model
 * keeps lists of positions and reads each cell from the current field, so a
 * later read sees every earlier write, as a reference would.
 */
module Grid {
  import opened Wrappers
  import opened Arrays
  import opened History
  import opened Cells

  /** `fieldLength` and `squareLength`. */
  const FieldLength: int := 9
  const SquareLength: int := 3

  type Field = seq<seq<Cell>>

  /** A cell position: row index, then column index. Object identity of cells is position identity. */
  datatype Pos = Pos(row: int, col: int)

  /** The field together with the live change log the cells write to. */
  datatype Board = Board(field: Field, log: seq<ChangeLogLine>)

  predicate InGrid(p: Pos) {
    0 <= p.row < FieldLength && 0 <= p.col < FieldLength
  }

  predicate AllInGrid(ps: seq<Pos>) {
    forall k :: 0 <= k < |ps| ==> InGrid(ps[k])
  }

  /** Where a cell says it is. */
  function PosOf(c: Cell): Pos {
    Pos(c.row, c.col)
  }

  /** A field as `initSudokuSolver` builds it: 9 rows of 9 cells, each knowing its own position. */
  predicate ValidField(f: Field) {
    && |f| == FieldLength
    && (forall r :: 0 <= r < FieldLength ==> |f[r]| == FieldLength)
    && (forall r, c :: 0 <= r < FieldLength && 0 <= c < FieldLength ==> f[r][c].row == r && f[r][c].col == c)
  }

  /** `state.field[p.row][p.col]`. */
  function At(f: Field, p: Pos): (c: Cell)
    requires ValidField(f) && InGrid(p)
    ensures PosOf(c) == p
  {
    f[p.row][p.col]
  }

  /** Every cell of the field is well formed. */
  ghost predicate WellFormedField(f: Field)
    requires ValidField(f)
  {
    forall q :: InGrid(q) ==> WellFormed(At(f, q))
  }

  /** Two valid fields with the same cell at every position are the same field. */
  lemma FieldExtensionality(f: Field, g: Field)
    requires ValidField(f) && ValidField(g)
    requires forall q :: InGrid(q) ==> At(f, q) == At(g, q)
    ensures f == g
  {
    forall r | 0 <= r < FieldLength ensures f[r] == g[r] {
      forall c | 0 <= c < FieldLength ensures f[r][c] == g[r][c] {
        assert At(f, Pos(r, c)) == At(g, Pos(r, c));
      }
    }
  }

  // ---------------------------------------------------------------------------
  // Writing cells back

  /** Store `c` at its own position; every other cell is kept. */
  function Write(f: Field, c: Cell): (f': Field)
    requires ValidField(f) && InGrid(PosOf(c))
    ensures ValidField(f')
    ensures forall q :: InGrid(q) ==> At(f', q) == if q == PosOf(c) then c else At(f, q)
  {
    f[c.row := f[c.row][c.col := c]]
  }

  /** The lines a mutation passes to `saveToHistory`: none or one. */
  function Lines(logged: Option<ChangeLogLine>): (r: seq<ChangeLogLine>)
    ensures |r| <= 1 && (r == [] <==> logged.None?)
  {
    if logged.Some? then [logged.value] else []
  }

  /** Apply a cell mutation: store the new cell and append its log line, if any. */
  function Apply(b: Board, m: Mutation): (r: Board)
    requires ValidField(b.field) && InGrid(PosOf(m.cell))
    ensures ValidField(r.field)
    ensures forall q :: InGrid(q) ==> At(r.field, q) == if q == PosOf(m.cell) then m.cell else At(b.field, q)
    ensures r.log == b.log + Lines(m.logged)
  {
    Board(Write(b.field, m.cell), b.log + Lines(m.logged))
  }

  /** `field[p].removeOccupiedValues(numbers, basedOn)`. It changes only the cell at `p`, as `Pruned`
      says, and logs a line exactly when something was removed. */
  function Remove(b: Board, p: Pos, numbers: seq<int>, basedOn: string): (r: Board)
    requires ValidField(b.field) && InGrid(p)
    ensures ValidField(r.field)
    ensures forall q :: InGrid(q) ==> At(r.field, q) == if q == p then Pruned(At(b.field, p), numbers) else At(b.field, q)
    ensures b.log <= r.log && |r.log| <= |b.log| + 1
    ensures Pruned(At(b.field, p), numbers) == At(b.field, p) ==> r == b
  {
    var c := At(b.field, p);
    var m := RemoveOccupiedValues(c, numbers, basedOn);
    assert Pruned(c, numbers) == c ==> Apply(b, m) == b by {
      if Pruned(c, numbers) == c {
        FieldExtensionality(Write(b.field, c), b.field);
      }
    }
    Apply(b, m)
  }

  /** `field[p].setPossibleValues(values, basedOn)`: only the cell at `p` changes, as `Replaced` says. */
  function SetPossible(b: Board, p: Pos, values: seq<int>, basedOn: string): (r: Board)
    requires ValidField(b.field) && InGrid(p)
    ensures ValidField(r.field)
    ensures forall q :: InGrid(q) ==> At(r.field, q) == if q == p then Replaced(At(b.field, p), values) else At(b.field, q)
    ensures b.log <= r.log && |r.log| <= |b.log| + 1
  {
    Apply(b, SetPossibleValues(At(b.field, p), values, basedOn))
  }

  /** `field[p].updateValue()`: only the cell at `p` changes. */
  function Commit(b: Board, p: Pos): (r: Board)
    requires ValidField(b.field) && InGrid(p)
    ensures ValidField(r.field)
    ensures forall q :: InGrid(q) ==> At(r.field, q) == if q == p then UpdateValue(At(b.field, p)).cell else At(b.field, q)
    ensures b.log <= r.log && |r.log| == |b.log| + 1
  {
    Apply(b, UpdateValue(At(b.field, p)))
  }

  /** `cells.forEach(c => c.removeOccupiedValues(numbers, basedOn))` over positions, in order.
      Each listed cell ends up pruned once, however often it is listed. */
  function RemoveAll(b: Board, ps: seq<Pos>, numbers: seq<int>, basedOn: string): (r: Board)
    requires ValidField(b.field) && AllInGrid(ps)
    ensures ValidField(r.field)
    ensures forall q :: InGrid(q) ==> At(r.field, q) == if q in ps then Pruned(At(b.field, q), numbers) else At(b.field, q)
    ensures b.log <= r.log
    decreases |ps|
  {
    if ps == [] then b
    else
      var b' := Remove(b, ps[0], numbers, basedOn);
      var r := RemoveAll(b', ps[1..], numbers, basedOn);
      assert forall q :: q in ps <==> q == ps[0] || q in ps[1..];
      PrunedIdempotent(At(b.field, ps[0]), numbers);
      r
  }

  /** `cells.forEach(c => c.setPossibleValues(values, basedOn))` over positions, in order.
      Each listed cell ends up replaced once, however often it is listed. */
  function ReplaceAll(b: Board, ps: seq<Pos>, values: seq<int>, basedOn: string): (r: Board)
    requires ValidField(b.field) && AllInGrid(ps)
    ensures ValidField(r.field)
    ensures forall q :: InGrid(q) ==> At(r.field, q) == if q in ps then Replaced(At(b.field, q), values) else At(b.field, q)
    ensures b.log <= r.log
    decreases |ps|
  {
    if ps == [] then b
    else
      var b' := SetPossible(b, ps[0], values, basedOn);
      var r := ReplaceAll(b', ps[1..], values, basedOn);
      ReplaceStep(b.field, b'.field, r.field, ps, values);
      r
  }

  /** Replacing the first listed cell and then the rest is replacing every listed cell once. */
  lemma ReplaceStep(f: Field, f': Field, g: Field, ps: seq<Pos>, values: seq<int>)
    requires ValidField(f) && ValidField(f') && ValidField(g) && ps != []
    requires forall q :: InGrid(q) ==> At(f', q) == if q == ps[0] then Replaced(At(f, q), values) else At(f, q)
    requires forall q :: InGrid(q) ==> At(g, q) == if q in ps[1..] then Replaced(At(f', q), values) else At(f', q)
    ensures forall q :: InGrid(q) ==> At(g, q) == if q in ps then Replaced(At(f, q), values) else At(f, q)
  {
    assert forall q :: q in ps <==> q == ps[0] || q in ps[1..];
    if InGrid(ps[0]) {
      ReplacedIdempotent(At(f, ps[0]), values);
    }
  }

  // ---------------------------------------------------------------------------
  // How a field may change

  /** Every cell of `f'` is a narrowing of the cell of `f` at the same position: no value changes
      and candidates are only dropped. */
  ghost predicate Narrowed(f: Field, f': Field)
    requires ValidField(f) && ValidField(f')
  {
    forall q :: InGrid(q) ==> Narrows(At(f, q), At(f', q))
  }

  /** Every cell of `f'` is an evolution of the cell of `f` at the same position. */
  ghost predicate Evolved(f: Field, f': Field)
    requires ValidField(f) && ValidField(f')
  {
    forall q :: InGrid(q) ==> Evolves(At(f, q), At(f', q))
  }

  lemma NarrowedTransitive(f: Field, g: Field, h: Field)
    requires ValidField(f) && ValidField(g) && ValidField(h)
    requires Narrowed(f, g) && Narrowed(g, h)
    ensures Narrowed(f, h)
  {
    forall q | InGrid(q) ensures Narrows(At(f, q), At(h, q)) {
      EvolvesTransitive(At(f, q), At(g, q), At(h, q));
    }
  }

  lemma EvolvedTransitive(f: Field, g: Field, h: Field)
    requires ValidField(f) && ValidField(g) && ValidField(h)
    requires Evolved(f, g) && Evolved(g, h)
    ensures Evolved(f, h)
  {
    forall q | InGrid(q) ensures Evolves(At(f, q), At(h, q)) {
      EvolvesTransitive(At(f, q), At(g, q), At(h, q));
    }
  }

  /** Evolving, in particular narrowing, keeps every cell well formed. */
  lemma EvolvedWellFormed(f: Field, f': Field)
    requires ValidField(f) && ValidField(f') && WellFormedField(f) && Evolved(f, f')
    ensures WellFormedField(f')
  {
    forall q | InGrid(q) ensures WellFormed(At(f', q)) {
      EvolvesWellFormed(At(f, q), At(f', q));
    }
  }

  /** Removing numbers from the listed cells of a well-formed field narrows it. */
  lemma RemoveAllNarrows(b: Board, ps: seq<Pos>, numbers: seq<int>, basedOn: string)
    requires ValidField(b.field) && AllInGrid(ps) && WellFormedField(b.field)
    ensures Narrowed(b.field, RemoveAll(b, ps, numbers, basedOn).field)
    ensures WellFormedField(RemoveAll(b, ps, numbers, basedOn).field)
  {
    var r := RemoveAll(b, ps, numbers, basedOn);
    forall q | InGrid(q) ensures Narrows(At(b.field, q), At(r.field, q)) {
      PrunedNarrows(At(b.field, q), numbers);
    }
    EvolvedWellFormed(b.field, r.field);
  }

  /** Replacing the candidates of the listed cells by numbers each of them already holds narrows
      a well-formed field. */
  lemma ReplaceAllNarrows(b: Board, ps: seq<Pos>, values: seq<int>, basedOn: string)
    requires ValidField(b.field) && AllInGrid(ps) && WellFormedField(b.field)
    requires forall q, x :: q in ps && x in values ==> x in At(b.field, q).candidates
    ensures Narrowed(b.field, ReplaceAll(b, ps, values, basedOn).field)
    ensures WellFormedField(ReplaceAll(b, ps, values, basedOn).field)
  {
    var r := ReplaceAll(b, ps, values, basedOn);
    forall q | InGrid(q) ensures Narrows(At(b.field, q), At(r.field, q)) {
      if q in ps {
        ReplacedNarrows(At(b.field, q), values);
      }
    }
    EvolvedWellFormed(b.field, r.field);
  }

  // ---------------------------------------------------------------------------
  // Blocks and the cell-gathering loops

  /** `findCellsSquareFirstRow` / `findCellsSquareFirstColumn`: the first index of the block
      holding index `i`. */
  function SquareFirst(i: int): (r: int)
    ensures r % SquareLength == 0 && r <= i < r + SquareLength
  {
    i - i % SquareLength
  }

  /** Both positions lie in the same 3×3 block. */
  predicate SameSquare(p: Pos, q: Pos) {
    SquareFirst(p.row) == SquareFirst(q.row) && SquareFirst(p.col) == SquareFirst(q.col)
  }

  /** Both positions share a row, a column or a block. */
  predicate SameUnit(p: Pos, q: Pos) {
    p.row == q.row || p.col == q.col || SameSquare(p, q)
  }

  /** The positions of row `r`, left to right. */
  function RowPositions(r: int): (ps: seq<Pos>)
    requires 0 <= r < FieldLength
    ensures |ps| == FieldLength && AllInGrid(ps)
    ensures forall k :: 0 <= k < |ps| ==> ps[k] == Pos(r, k)
    ensures forall q :: q in ps <==> InGrid(q) && q.row == r
  {
    var ps := seq(FieldLength, k => Pos(r, k));
    assert forall q :: InGrid(q) && q.row == r ==> ps[q.col] == q;
    ps
  }

  /** The positions of column `c`, top to bottom. */
  function ColumnPositions(c: int): (ps: seq<Pos>)
    requires 0 <= c < FieldLength
    ensures |ps| == FieldLength && AllInGrid(ps)
    ensures forall k :: 0 <= k < |ps| ==> ps[k] == Pos(k, c)
    ensures forall q :: q in ps <==> InGrid(q) && q.col == c
  {
    var ps := seq(FieldLength, k => Pos(k, c));
    assert forall q :: InGrid(q) && q.col == c ==> ps[q.row] == q;
    ps
  }

  /** The positions of `p`'s block in the order of the nested `i`/`j` loops: row by row. */
  function SquarePositions(p: Pos): (ps: seq<Pos>)
    requires InGrid(p)
    ensures |ps| == FieldLength && AllInGrid(ps)
    ensures forall q :: q in ps <==> InGrid(q) && SameSquare(p, q)
  {
    var r0 := SquareFirst(p.row);
    var c0 := SquareFirst(p.col);
    [Pos(r0, c0), Pos(r0, c0 + 1), Pos(r0, c0 + 2),
     Pos(r0 + 1, c0), Pos(r0 + 1, c0 + 1), Pos(r0 + 1, c0 + 2),
     Pos(r0 + 2, c0), Pos(r0 + 2, c0 + 1), Pos(r0 + 2, c0 + 2)]
  }

  /** The test of the solver's gathering loops: `q` is unset, is not `p` when `exceptSelected`, and
      `p` or `q` has at least `n` candidates (`n <= 0` drops the last test). */
  predicate Selected(f: Field, p: Pos, q: Pos, n: int, exceptSelected: bool)
    requires ValidField(f) && InGrid(p) && InGrid(q)
  {
    && At(f, q).value.None?
    && (exceptSelected ==> q != p)
    && (|At(f, p).candidates| >= n || |At(f, q).candidates| >= n)
  }

  /** The gathering loop over `ps`: the selected positions, in the order of `ps`. */
  function Select(f: Field, ps: seq<Pos>, p: Pos, n: int, exceptSelected: bool): (r: seq<Pos>)
    requires ValidField(f) && InGrid(p) && AllInGrid(ps)
    ensures AllInGrid(r) && |r| <= |ps|
    ensures forall q :: q in r <==> q in ps && Selected(f, p, q, n, exceptSelected)
    decreases |ps|
  {
    if ps == [] then []
    else
      assert forall q :: q in ps <==> q == ps[0] || q in ps[1..];
      (if Selected(f, p, ps[0], n, exceptSelected) then [ps[0]] else []) + Select(f, ps[1..], p, n, exceptSelected)
  }

  /** `getSquareEmptyCells(cell, exceptSelected)`: the unset cells of `p`'s block, without `p`
      itself when `exceptSelected`. */
  function GetSquareEmptyCells(f: Field, p: Pos, exceptSelected: bool): (r: seq<Pos>)
    requires ValidField(f) && InGrid(p)
    ensures AllInGrid(r)
    ensures forall q :: q in r <==>
      InGrid(q) && SameSquare(p, q) && At(f, q).value.None? && (exceptSelected ==> q != p)
  {
    Select(f, SquarePositions(p), p, 0, exceptSelected)
  }

  /** The cells at the listed positions, read from the field. */
  function CellsOf(f: Field, ps: seq<Pos>): (r: seq<Cell>)
    requires ValidField(f) && AllInGrid(ps)
    ensures |r| == |ps|
    ensures forall k :: 0 <= k < |ps| ==> r[k] == At(f, ps[k])
  {
    seq(|ps|, k requires 0 <= k < |ps| => At(f, ps[k]))
  }

  /** `cells.filter(el => el !== q)` on positions. */
  function Without(ps: seq<Pos>, q: Pos): (r: seq<Pos>)
    ensures |r| <= |ps|
    ensures forall x :: x in r <==> x in ps && x != q
    ensures AllInGrid(ps) ==> AllInGrid(r)
    decreases |ps|
  {
    if ps == [] then []
    else
      assert forall x :: x in ps <==> x == ps[0] || x in ps[1..];
      (if ps[0] != q then [ps[0]] else []) + Without(ps[1..], q)
  }

  /** `isAtTheSameRow(cells)`: as written, both exits of the loop return `true`. */
  function IsAtTheSameRow(cells: seq<Cell>): (r: bool)
    ensures r
  {
    SameRowFrom(cells, 1)
  }

  function SameRowFrom(cells: seq<Cell>, i: nat): (r: bool)
    ensures r
    decreases |cells| - i
  {
    if i >= |cells| then true
    else if cells[i].row != cells[0].row then true
    else SameRowFrom(cells, i + 1)
  }

  /** `isAtTheSameColumn(cells)`: as written, both exits of the loop return `true`. */
  function IsAtTheSameColumn(cells: seq<Cell>): (r: bool)
    ensures r
  {
    SameColumnFrom(cells, 1)
  }

  function SameColumnFrom(cells: seq<Cell>, i: nat): (r: bool)
    ensures r
    decreases |cells| - i
  {
    if i >= |cells| then true
    else if cells[i].col != cells[0].col then true
    else SameColumnFrom(cells, i + 1)
  }

  // ---------------------------------------------------------------------------
  // Row-major traversal, `isSolved`, `getLastUpdatedCells`

  /** The `k`-th position of the nested `i`/`j` loops over the whole field. */
  function PosAt(k: int): (p: Pos)
    requires 0 <= k < FieldLength * FieldLength
    ensures InGrid(p) && RowMajor(p) == k
  {
    Pos(k / FieldLength, k % FieldLength)
  }

  /** The index of a position in the row-major traversal. */
  function RowMajor(q: Pos): int {
    q.row * FieldLength + q.col
  }

  /** Every position is visited by the row-major traversal, at index `row * 9 + col`. */
  lemma PosAtIndex(q: Pos)
    requires InGrid(q)
    ensures 0 <= q.row * FieldLength + q.col < FieldLength * FieldLength
    ensures PosAt(q.row * FieldLength + q.col) == q
  {
  }

  /** `isSolved()`: every cell holds a (truthy) value. */
  function IsSolved(f: Field): (r: bool)
    requires ValidField(f)
    ensures r <==> forall q :: InGrid(q) ==> !Falsy(At(f, q).value)
  {
    var r := SolvedFrom(f, 0);
    assert r ==> forall q :: InGrid(q) ==> !Falsy(At(f, q).value) by {
      forall q | r && InGrid(q) ensures !Falsy(At(f, q).value) {
        PosAtIndex(q);
      }
    }
    r
  }

  function SolvedFrom(f: Field, k: nat): (r: bool)
    requires ValidField(f) && k <= FieldLength * FieldLength
    ensures r <==> forall k' :: k <= k' < FieldLength * FieldLength ==> !Falsy(At(f, PosAt(k')).value)
    decreases FieldLength * FieldLength - k
  {
    if k == FieldLength * FieldLength then true
    else if Falsy(At(f, PosAt(k)).value) then false
    else SolvedFrom(f, k + 1)
  }

  /** `getLastUpdatedCells()`: the cells of `f` that differ (by `isEqual`) from `snapshot`,
      in row-major order. */
  function GetLastUpdatedCells(f: Field, snapshot: Field): (r: seq<Cell>)
    requires ValidField(f) && ValidField(snapshot)
    ensures forall x :: x in r ==> InGrid(PosOf(x)) && x == At(f, PosOf(x)) && !IsEqual(x, At(snapshot, PosOf(x)))
    ensures r == [] <==> forall q :: InGrid(q) ==> IsEqual(At(f, q), At(snapshot, q))
    ensures forall q :: InGrid(q) && !IsEqual(At(f, q), At(snapshot, q)) ==> At(f, q) in r
    ensures forall i, j :: 0 <= i < j < |r| ==> RowMajor(PosOf(r[i])) < RowMajor(PosOf(r[j]))
  {
    var r := UpdatedFrom(f, snapshot, 0);
    assert forall q :: InGrid(q) && !IsEqual(At(f, q), At(snapshot, q)) ==> At(f, q) in r by {
      forall q | InGrid(q) && !IsEqual(At(f, q), At(snapshot, q)) ensures At(f, q) in r {
        PosAtIndex(q);
      }
    }
    assert r == [] ==> forall q :: InGrid(q) ==> IsEqual(At(f, q), At(snapshot, q)) by {
      forall q | r == [] && InGrid(q) ensures IsEqual(At(f, q), At(snapshot, q)) {
        PosAtIndex(q);
      }
    }
    r
  }

  function UpdatedFrom(f: Field, snapshot: Field, k: nat): (r: seq<Cell>)
    requires ValidField(f) && ValidField(snapshot) && k <= FieldLength * FieldLength
    ensures forall x :: x in r ==> InGrid(PosOf(x)) && x == At(f, PosOf(x)) && !IsEqual(x, At(snapshot, PosOf(x)))
    ensures r == [] <==> forall k' :: k <= k' < FieldLength * FieldLength ==> IsEqual(At(f, PosAt(k')), At(snapshot, PosAt(k')))
    ensures forall k' :: k <= k' < FieldLength * FieldLength && !IsEqual(At(f, PosAt(k')), At(snapshot, PosAt(k'))) ==>
      At(f, PosAt(k')) in r
    ensures forall x :: x in r ==> k <= RowMajor(PosOf(x))
    ensures forall i, j :: 0 <= i < j < |r| ==> RowMajor(PosOf(r[i])) < RowMajor(PosOf(r[j]))
    decreases FieldLength * FieldLength - k
  {
    if k == FieldLength * FieldLength then []
    else
      var q := PosAt(k);
      var rest := UpdatedFrom(f, snapshot, k + 1);
      var r := if !IsEqual(At(f, q), At(snapshot, q)) then [At(f, q)] + rest else rest;
      UpdatedStep(f, snapshot, k, rest, r);
      r
  }

  /** One step of the traversal: position `k` is reported in front of the later ones when it differs. */
  lemma UpdatedStep(f: Field, snapshot: Field, k: nat, rest: seq<Cell>, r: seq<Cell>)
    requires ValidField(f) && ValidField(snapshot) && k < FieldLength * FieldLength
    requires forall x :: x in rest ==> InGrid(PosOf(x)) && x == At(f, PosOf(x)) && !IsEqual(x, At(snapshot, PosOf(x)))
    requires forall k' :: k + 1 <= k' < FieldLength * FieldLength && !IsEqual(At(f, PosAt(k')), At(snapshot, PosAt(k'))) ==>
      At(f, PosAt(k')) in rest
    requires forall x :: x in rest ==> k + 1 <= RowMajor(PosOf(x))
    requires forall i, j :: 0 <= i < j < |rest| ==> RowMajor(PosOf(rest[i])) < RowMajor(PosOf(rest[j]))
    requires r == if !IsEqual(At(f, PosAt(k)), At(snapshot, PosAt(k))) then [At(f, PosAt(k))] + rest else rest
    ensures forall k' :: k <= k' < FieldLength * FieldLength && !IsEqual(At(f, PosAt(k')), At(snapshot, PosAt(k'))) ==>
      At(f, PosAt(k')) in r
    ensures forall x :: x in r ==> k <= RowMajor(PosOf(x))
    ensures forall i, j :: 0 <= i < j < |r| ==> RowMajor(PosOf(r[i])) < RowMajor(PosOf(r[j]))
  {
    if r != rest {
      forall i, j | 0 <= i < j < |r| ensures RowMajor(PosOf(r[i])) < RowMajor(PosOf(r[j])) {
        assert r[j] == rest[j - 1] && r[j] in rest;
        if i > 0 {
          assert r[i] == rest[i - 1];
        }
      }
    }
  }

  /** When the two fields agree on every preset flag, the field differs from the snapshot exactly
      when `getLastUpdatedCells` finds a cell: the change test of `useMethod` and the cells it reports
      agree. */
  lemma ChangedIffUpdatedCells(f: Field, snapshot: Field)
    requires ValidField(f) && ValidField(snapshot)
    requires forall q :: InGrid(q) ==> At(f, q).preset == At(snapshot, q).preset
    ensures f != snapshot <==> GetLastUpdatedCells(f, snapshot) != []
  {
    if GetLastUpdatedCells(f, snapshot) == [] {
      forall q | InGrid(q) ensures At(f, q) == At(snapshot, q) {
        assert IsEqual(At(f, q), At(snapshot, q));
      }
      FieldExtensionality(f, snapshot);
    }
  }
}
