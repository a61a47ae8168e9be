/**
 * `checkWithYWing` of src/composables/sudokuSolver.ts. The pivot is an unset
 * cell with two candidates; a pincer is an unset cell with two candidates of
 * which exactly one is shared with the pivot. Three searches run in turn, and
 * the first pincer pair found drives one elimination:
 *
 *  - a row pincer (right of the pivot) with a column pincer (below it): as
 *    written, the shared number is removed from `field[rowPincer.columnIdx]
 *    [columnPincer.rowIdx]`, the transpose of the cell both pincers see;
 *  - a row pincer with a block pincer, unless `isAtTheSameRow` holds;
 *  - a column pincer with a block pincer, unless `isAtTheSameColumn` holds.
 *
 * The two collinearity tests are parameters of `YWing`; the solver passes
 * `IsAtTheSameRow` and `IsAtTheSameColumn`, which always hold, so in the solver
 * only the first search can fire (`CheckWithYWing`).
 */
module YWing {
  import opened Wrappers
  import opened Arrays
  import opened Cells
  import opened Grid

  const ColumnRowTag: string := "Y-wing column/row intersection"
  const RowSquareTag: string := "Y-wing row/square intersection"
  const ColumnSquareTag: string := "Y-wing column/square intersection"

  /** A pincer for `pivot`: unset, two candidates, exactly one of them a candidate of the pivot. */
  predicate PincerOf(pivot: Cell, c: Cell) {
    IsEmpty(c) && |c.candidates| == 2 && |GetAllCommonElements(pivot.candidates, c.candidates)| == 1
  }

  /** The pincers among `ps`, in order. */
  function PincersIn(f: Field, pivot: Cell, ps: seq<Pos>): (r: seq<Pos>)
    requires ValidField(f) && AllInGrid(ps)
    ensures AllInGrid(r)
    ensures forall q :: q in r <==> q in ps && PincerOf(pivot, At(f, q))
    ensures Increasing(ps) ==> Increasing(r)
    decreases |ps|
  {
    if ps == [] then []
    else
      assert forall q :: q in ps <==> q == ps[0] || q in ps[1..];
      var rest := PincersIn(f, pivot, ps[1..]);
      HeadBeforeRest(ps, rest);
      (if PincerOf(pivot, At(f, ps[0])) then [ps[0]] else []) + rest
  }

  /** Positions listed strictly left to right, top to bottom. */
  predicate Increasing(ps: seq<Pos>) {
    forall a, c :: 0 <= a < c < |ps| ==> RowMajor(ps[a]) < RowMajor(ps[c])
  }

  /** In an increasing list, the head comes before everything taken from the tail. */
  lemma HeadBeforeRest(ps: seq<Pos>, rest: seq<Pos>)
    requires ps != [] && forall q :: q in rest ==> q in ps[1..]
    ensures Increasing(ps) ==> forall k :: 0 <= k < |rest| ==> RowMajor(ps[0]) < RowMajor(rest[k])
  {
    if Increasing(ps) {
      forall k | 0 <= k < |rest| ensures RowMajor(ps[0]) < RowMajor(rest[k]) {
        assert rest[k] in ps[1..];
        var c :| 0 <= c < |ps[1..]| && ps[1..][c] == rest[k];
        assert ps[1 + c] == rest[k];
      }
    }
  }

  /** `rowPincerCells`: the pincers of `p`'s row right of `p`, left to right. */
  function RowPincers(f: Field, p: Pos): (r: seq<Pos>)
    requires ValidField(f) && InGrid(p)
    ensures AllInGrid(r)
    ensures forall q :: q in r <==> InGrid(q) && q.row == p.row && q.col > p.col && PincerOf(At(f, p), At(f, q))
    ensures Increasing(r)
  {
    var tail := RowPositions(p.row)[p.col + 1..];
    assert forall k :: 0 <= k < |tail| ==> tail[k] == Pos(p.row, p.col + 1 + k);
    assert forall q :: q in tail <==> InGrid(q) && q.row == p.row && q.col > p.col by {
      forall q | InGrid(q) && q.row == p.row && q.col > p.col ensures q in tail {
        assert tail[q.col - p.col - 1] == q;
      }
    }
    PincersIn(f, At(f, p), tail)
  }

  /** `columnPincerCells`: the pincers of `p`'s column below `p`, top to bottom. */
  function ColumnPincers(f: Field, p: Pos): (r: seq<Pos>)
    requires ValidField(f) && InGrid(p)
    ensures AllInGrid(r)
    ensures forall q :: q in r <==> InGrid(q) && q.col == p.col && q.row > p.row && PincerOf(At(f, p), At(f, q))
    ensures Increasing(r)
  {
    var tail := ColumnPositions(p.col)[p.row + 1..];
    assert forall k :: 0 <= k < |tail| ==> tail[k] == Pos(p.row + 1 + k, p.col);
    assert forall q :: q in tail <==> InGrid(q) && q.col == p.col && q.row > p.row by {
      forall q | InGrid(q) && q.col == p.col && q.row > p.row ensures q in tail {
        assert tail[q.row - p.row - 1] == q;
      }
    }
    PincersIn(f, At(f, p), tail)
  }

  /** `squarePincerCells`: the pincers of `p`'s block other than `p`, row by row. */
  function SquarePincers(f: Field, p: Pos): (r: seq<Pos>)
    requires ValidField(f) && InGrid(p)
    ensures AllInGrid(r)
    ensures forall q :: q in r <==> InGrid(q) && SameSquare(p, q) && q != p && PincerOf(At(f, p), At(f, q))
  {
    PincersIn(f, At(f, p), GetSquareEmptyCells(f, p, true))
  }

  /** The numbers two pincers share. */
  function Shared(x: Cell, y: Cell): seq<int> {
    GetAllCommonElements(x.candidates, y.candidates)
  }

  /** The pair test of all three searches: `x` and `y` share exactly one number, and it is not the
      first number `x` shares with the pivot (an absent one compares unequal). */
  predicate Links(pivot: Cell, x: Cell, y: Cell) {
    var withPivot := GetAllCommonElements(x.candidates, pivot.candidates);
    |Shared(x, y)| == 1 && (withPivot == [] || Shared(x, y)[0] != withPivot[0])
  }

  /** The number a linked pair removes is a candidate of both pincers and not of the pivot. */
  lemma LinksMeaning(pivot: Cell, x: Cell, y: Cell)
    requires PincerOf(pivot, x) && Links(pivot, x, y)
    ensures |Shared(x, y)| == 1
    ensures Shared(x, y)[0] in x.candidates && Shared(x, y)[0] in y.candidates
    ensures Shared(x, y)[0] !in pivot.candidates
  {
    var a, b := x.candidates[0], x.candidates[1];
    FilterOfPair(x.candidates, In(pivot.candidates));
    var v := Shared(x, y)[0];
    assert v in Shared(x, y);
    var withPivot := GetAllCommonElements(x.candidates, pivot.candidates);
    if a in pivot.candidates {
      assert b !in pivot.candidates;
      assert a in withPivot;
      assert withPivot[0] in withPivot;
      assert withPivot[0] == a;
    } else {
      assert b in pivot.candidates;
      assert b in withPivot;
      assert withPivot[0] in withPivot;
      assert withPivot[0] == b;
    }
  }

  lemma FilterOfPair(s: seq<int>, p: int -> bool)
    requires |s| == 2
    ensures Filter(s, p) == (if p(s[0]) then [s[0]] else []) + (if p(s[1]) then [s[1]] else [])
  {
    assert s[1..][1..] == [];
  }

  /** The test of one search on the pair `x`, `y`: linked, and the collinearity test on
      `[x, y, pivot]` does not hold. */
  predicate Matches(f: Field, pivot: Cell, x: Pos, y: Pos, line: seq<Cell> -> bool)
    requires ValidField(f) && InGrid(x) && InGrid(y)
  {
    Links(pivot, At(f, x), At(f, y)) && !line([At(f, x), At(f, y), pivot])
  }

  /** No pair of `xs` × `ys` matches. */
  predicate NoMatch(f: Field, pivot: Cell, xs: seq<Pos>, ys: seq<Pos>, line: seq<Cell> -> bool)
    requires ValidField(f) && AllInGrid(xs) && AllInGrid(ys)
  {
    forall i, j :: 0 <= i < |xs| && 0 <= j < |ys| ==> !Matches(f, pivot, xs[i], ys[j], line)
  }

  /** No pair the nested loops over `xs` and then `ys` reach before (`x`, `y`) matches, both lists
      running left to right, top to bottom. */
  predicate FirstMatch(f: Field, pivot: Cell, xs: seq<Pos>, ys: seq<Pos>, line: seq<Cell> -> bool, x: Pos, y: Pos)
    requires ValidField(f) && AllInGrid(xs) && AllInGrid(ys)
  {
    forall x', y' :: x' in xs && y' in ys && (RowMajor(x') < RowMajor(x) || (x' == x && RowMajor(y') < RowMajor(y))) ==>
      !Matches(f, pivot, x', y', line)
  }

  /** In increasing lists, a pair before (`xs[i]`, `ys[j]`) in that order is a pair of earlier indices. */
  lemma BeforeInLoops(xs: seq<Pos>, ys: seq<Pos>, i: nat, j: nat, a: nat, c: nat)
    requires Increasing(xs) && Increasing(ys) && i < |xs| && j < |ys| && a < |xs| && c < |ys|
    requires RowMajor(xs[a]) < RowMajor(xs[i]) || (xs[a] == xs[i] && RowMajor(ys[c]) < RowMajor(ys[j]))
    ensures LoopsBefore(a, c, i, j)
  {
    if RowMajor(xs[a]) >= RowMajor(xs[i]) {
      assert a == i;
      assert c < j;
    }
  }

  /** The first matching pair in loop order of two increasing lists is the first in position order. */
  lemma FirstInLoops(f: Field, pivot: Cell, xs: seq<Pos>, ys: seq<Pos>, line: seq<Cell> -> bool, i: nat, j: nat)
    requires ValidField(f) && AllInGrid(xs) && AllInGrid(ys) && i < |xs| && j < |ys|
    requires forall a: nat, c: nat :: a < |xs| && c < |ys| && LoopsBefore(a, c, i, j) ==> !Matches(f, pivot, xs[a], ys[c], line)
    ensures Increasing(xs) && Increasing(ys) ==> FirstMatch(f, pivot, xs, ys, line, xs[i], ys[j])
  {
    if Increasing(xs) && Increasing(ys) {
      forall x', y' | x' in xs && y' in ys && (RowMajor(x') < RowMajor(xs[i]) || (x' == xs[i] && RowMajor(y') < RowMajor(ys[j])))
        ensures !Matches(f, pivot, x', y', line)
      {
        var a :| 0 <= a < |xs| && xs[a] == x';
        var c :| 0 <= c < |ys| && ys[c] == y';
        BeforeInLoops(xs, ys, i, j, a, c);
      }
    }
  }

  /** The test of the nested `i`/`j` search on index pairs. */
  function PairTest(f: Field, pivot: Cell, xs: seq<Pos>, ys: seq<Pos>, line: seq<Cell> -> bool): (nat, nat) -> bool
    requires ValidField(f) && AllInGrid(xs) && AllInGrid(ys)
  {
    (a: nat, c: nat) => a < |xs| && c < |ys| && Matches(f, pivot, xs[a], ys[c], line)
  }

  /** The nested `i`/`j` search: the first matching pair, row-major. */
  function FirstPair(f: Field, pivot: Cell, xs: seq<Pos>, ys: seq<Pos>, line: seq<Cell> -> bool): (r: Option<(nat, nat)>)
    requires ValidField(f) && AllInGrid(xs) && AllInGrid(ys)
    ensures r.Some? ==> r.value.0 < |xs| && r.value.1 < |ys| && Matches(f, pivot, xs[r.value.0], ys[r.value.1], line)
    ensures r.Some? ==> forall a: nat, c: nat ::
      a < |xs| && c < |ys| && LoopsBefore(a, c, r.value.0, r.value.1) ==> !Matches(f, pivot, xs[a], ys[c], line)
    ensures r.None? <==> NoMatch(f, pivot, xs, ys, line)
  {
    var lo := (a: nat) => 0;
    var r := FirstPairIndex(PairTest(f, pivot, xs, ys, line), lo, 0, |xs|, |ys|);
    PairSearchFound(f, pivot, xs, ys, line, lo, r);
    PairSearchFirst(f, pivot, xs, ys, line, lo, r);
    PairSearchNone(f, pivot, xs, ys, line, lo, r);
    r
  }

  /** The generic search over index pairs of pincer lists returns a matching pair ... */
  lemma PairSearchFound(f: Field, pivot: Cell, xs: seq<Pos>, ys: seq<Pos>, line: seq<Cell> -> bool,
                      lo: nat -> nat, r: Option<(nat, nat)>)
    requires ValidField(f) && AllInGrid(xs) && AllInGrid(ys) && forall a :: lo(a) == 0
    requires r == FirstPairIndex(PairTest(f, pivot, xs, ys, line), lo, 0, |xs|, |ys|)
    ensures r.Some? ==> r.value.0 < |xs| && r.value.1 < |ys| && Matches(f, pivot, xs[r.value.0], ys[r.value.1], line)
  {
    if r.Some? {
      assert PairTest(f, pivot, xs, ys, line)(r.value.0, r.value.1);
    }
  }

  /** ... no earlier pair in loop order matches ... */
  lemma PairSearchFirst(f: Field, pivot: Cell, xs: seq<Pos>, ys: seq<Pos>, line: seq<Cell> -> bool,
                      lo: nat -> nat, r: Option<(nat, nat)>)
    requires ValidField(f) && AllInGrid(xs) && AllInGrid(ys) && forall a :: lo(a) == 0
    requires r == FirstPairIndex(PairTest(f, pivot, xs, ys, line), lo, 0, |xs|, |ys|)
    ensures r.Some? ==> forall a: nat, c: nat ::
      a < |xs| && c < |ys| && LoopsBefore(a, c, r.value.0, r.value.1) ==> !Matches(f, pivot, xs[a], ys[c], line)
  {
    if r.Some? {
      LoopOrderMatches(f, pivot, xs, ys, line, PairTest(f, pivot, xs, ys, line), r.value.0, r.value.1);
    }
  }

  /** A pair of indices that no earlier pair in loop order passes the search's test. */
  lemma LoopOrderMatches(f: Field, pivot: Cell, xs: seq<Pos>, ys: seq<Pos>, line: seq<Cell> -> bool,
                         test: (nat, nat) -> bool, i: nat, j: nat)
    requires ValidField(f) && AllInGrid(xs) && AllInGrid(ys) && test == PairTest(f, pivot, xs, ys, line)
    requires forall a: nat, c: nat :: a < i && c < |ys| ==> !test(a, c)
    requires forall c: nat :: c < j ==> !test(i, c)
    ensures forall a: nat, c: nat ::
      a < |xs| && c < |ys| && LoopsBefore(a, c, i, j) ==> !Matches(f, pivot, xs[a], ys[c], line)
  {
    forall a: nat, c: nat | a < |xs| && c < |ys| && LoopsBefore(a, c, i, j)
      ensures !Matches(f, pivot, xs[a], ys[c], line)
    {
      assert !test(a, c);
    }
  }

  /** ... and it finds nothing exactly when no pair matches. */
  lemma PairSearchNone(f: Field, pivot: Cell, xs: seq<Pos>, ys: seq<Pos>, line: seq<Cell> -> bool,
                      lo: nat -> nat, r: Option<(nat, nat)>)
    requires ValidField(f) && AllInGrid(xs) && AllInGrid(ys) && forall a :: lo(a) == 0
    requires r == FirstPairIndex(PairTest(f, pivot, xs, ys, line), lo, 0, |xs|, |ys|)
    ensures r.None? <==> NoMatch(f, pivot, xs, ys, line)
  {
    var test := PairTest(f, pivot, xs, ys, line);
    if r.None? {
      forall a, c | 0 <= a < |xs| && 0 <= c < |ys| ensures !Matches(f, pivot, xs[a], ys[c], line) {
        assert !test(a, c);
      }
    } else {
      assert test(r.value.0, r.value.1);
    }
  }

  /** The first search has no collinearity test. */
  function Never(cells: seq<Cell>): bool {
    false
  }

  /** Which search fired. */
  datatype Kind = ColumnRow | RowSquare | ColumnSquare

  /** The outcome of the searches: the pincers `x` and `y`, the cells to prune and the numbers to
      remove from them, or nothing. */
  datatype Wing = Wing(kind: Kind, x: Pos, y: Pos, cells: seq<Pos>, numbers: seq<int>) | NoWing

  /** The cells a search of the given kind prunes for the pincers `x` and `y`: for the row/column
      search, as written, `field[x.columnIdx][y.rowIdx]`; for the block searches, the unset cells of
      the pivot's block other than the pivot and `y`, then the unset cells of `x`'s block other
      than `x`. */
  function Targets(f: Field, p: Pos, kind: Kind, x: Pos, y: Pos): (r: seq<Pos>)
    requires ValidField(f) && InGrid(p) && InGrid(x) && InGrid(y)
    ensures AllInGrid(r)
  {
    if kind == ColumnRow then [Pos(x.col, y.row)]
    else Without(GetSquareEmptyCells(f, p, true), y) + GetSquareEmptyCells(f, x, true)
  }

  /** One search: the first matching pair of `xs` × `ys`, with the cells it prunes. */
  function Search(f: Field, p: Pos, kind: Kind, xs: seq<Pos>, ys: seq<Pos>, line: seq<Cell> -> bool): (r: Wing)
    requires ValidField(f) && InGrid(p) && AllInGrid(xs) && AllInGrid(ys)
    ensures r.Wing? ==>
      && r.kind == kind && r.x in xs && r.y in ys && InGrid(r.x) && InGrid(r.y)
      && Matches(f, At(f, p), r.x, r.y, line)
      && r.cells == Targets(f, p, kind, r.x, r.y)
      && r.numbers == Shared(At(f, r.x), At(f, r.y))
    ensures r.Wing? && Increasing(xs) && Increasing(ys) ==> FirstMatch(f, At(f, p), xs, ys, line, r.x, r.y)
    ensures r.NoWing? <==> NoMatch(f, At(f, p), xs, ys, line)
  {
    match FirstPair(f, At(f, p), xs, ys, line)
    case Some((i, j)) =>
      assert xs[i] in xs && ys[j] in ys;
      FirstInLoops(f, At(f, p), xs, ys, line, i, j);
      Wing(kind, xs[i], ys[j], Targets(f, p, kind, xs[i], ys[j]), Shared(At(f, xs[i]), At(f, ys[j])))
    case None => NoWing
  }

  /** The three searches of `checkWithYWing`, in order; the first that finds a pair decides. */
  function FindWing(f: Field, p: Pos, sameRow: seq<Cell> -> bool, sameColumn: seq<Cell> -> bool): (r: Wing)
    requires ValidField(f) && InGrid(p)
    ensures |At(f, p).candidates| != 2 ==> r.NoWing?
    ensures r.Wing? ==>
      && |At(f, p).candidates| == 2 && InGrid(r.x) && InGrid(r.y)
      && Links(At(f, p), At(f, r.x), At(f, r.y))
      && r.cells == Targets(f, p, r.kind, r.x, r.y)
      && r.numbers == Shared(At(f, r.x), At(f, r.y))
    ensures r.Wing? && r.kind == ColumnRow ==>
      && r.x in RowPincers(f, p) && r.y in ColumnPincers(f, p)
    ensures r.Wing? && r.kind == ColumnRow ==> NoEarlierLink(f, p, r.x, r.y)
    ensures r.Wing? && r.kind == RowSquare ==>
      && NoMatch(f, At(f, p), RowPincers(f, p), ColumnPincers(f, p), Never)
      && r.x in RowPincers(f, p) && r.y in SquarePincers(f, p)
      && !sameRow([At(f, r.x), At(f, r.y), At(f, p)])
    ensures r.Wing? && r.kind == ColumnSquare ==>
      && NoMatch(f, At(f, p), RowPincers(f, p), ColumnPincers(f, p), Never)
      && NoMatch(f, At(f, p), RowPincers(f, p), SquarePincers(f, p), sameRow)
      && r.x in ColumnPincers(f, p) && r.y in SquarePincers(f, p)
      && !sameColumn([At(f, r.x), At(f, r.y), At(f, p)])
    ensures r.NoWing? && |At(f, p).candidates| == 2 ==>
      && NoMatch(f, At(f, p), RowPincers(f, p), ColumnPincers(f, p), Never)
      && NoMatch(f, At(f, p), RowPincers(f, p), SquarePincers(f, p), sameRow)
      && NoMatch(f, At(f, p), ColumnPincers(f, p), SquarePincers(f, p), sameColumn)
  {
    if |At(f, p).candidates| != 2 then NoWing
    else
      var byColumn := Search(f, p, ColumnRow, RowPincers(f, p), ColumnPincers(f, p), Never);
      if byColumn.Wing? then
        ColumnRowFirst(f, p, byColumn.x, byColumn.y);
        byColumn
      else
        var byRow := Search(f, p, RowSquare, RowPincers(f, p), SquarePincers(f, p), sameRow);
        if byRow.Wing? then byRow
        else Search(f, p, ColumnSquare, ColumnPincers(f, p), SquarePincers(f, p), sameColumn)
  }

  /** No row pincer left of `x`, and no column pincer above `y` with `x` itself, is linked: the
      pair (`x`, `y`) is the first the row/column loops can return. */
  ghost predicate NoEarlierLink(f: Field, p: Pos, x: Pos, y: Pos)
    requires ValidField(f) && InGrid(p)
  {
    forall x', y' ::
      && x' in RowPincers(f, p) && y' in ColumnPincers(f, p)
      && (x'.col < x.col || (x'.col == x.col && y'.row < y.row))
      ==> !Links(At(f, p), At(f, x'), At(f, y'))
  }

  /** The first row/column pair in loop order, read along the lines. */
  lemma ColumnRowFirst(f: Field, p: Pos, x: Pos, y: Pos)
    requires ValidField(f) && InGrid(p) && x in RowPincers(f, p) && y in ColumnPincers(f, p)
    requires FirstMatch(f, At(f, p), RowPincers(f, p), ColumnPincers(f, p), Never, x, y)
    ensures NoEarlierLink(f, p, x, y)
  {
    forall x', y' | x' in RowPincers(f, p) && y' in ColumnPincers(f, p) && (x'.col < x.col || (x'.col == x.col && y'.row < y.row))
      ensures !Links(At(f, p), At(f, x'), At(f, y'))
    {
      assert !Matches(f, At(f, p), x', y', Never);
    }
  }

  /** Prune the cells a wing names: one `removeOccupiedValues` call for the row/column search, a
      `forEach` over the cell list for the block searches. */
  function ApplyWing(b: Board, w: Wing): (r: Board)
    requires ValidField(b.field)
    requires w.Wing? ==> AllInGrid(w.cells) && (w.kind == ColumnRow ==> |w.cells| == 1)
    ensures ValidField(r.field) && b.log <= r.log
    ensures forall q :: InGrid(q) ==>
      At(r.field, q) == if w.Wing? && q in w.cells then Pruned(At(b.field, q), w.numbers) else At(b.field, q)
  {
    match w
    case NoWing => b
    case Wing(kind, _, _, cells, numbers) =>
      if kind == ColumnRow then
        assert forall q :: q in cells <==> q == cells[0];
        Remove(b, cells[0], numbers, ColumnRowTag)
      else RemoveAll(b, cells, numbers, if kind == RowSquare then RowSquareTag else ColumnSquareTag)
  }

  /** `checkWithYWing(pivotCell)` with the collinearity tests as parameters: the cells the winning
      search names lose the shared number, and nothing else changes. */
  function YWing(b: Board, p: Pos, sameRow: seq<Cell> -> bool, sameColumn: seq<Cell> -> bool): (r: Board)
    requires ValidField(b.field) && InGrid(p)
    ensures ValidField(r.field) && b.log <= r.log
    ensures var w := FindWing(b.field, p, sameRow, sameColumn);
      forall q :: InGrid(q) ==>
        At(r.field, q) == if w.Wing? && q in w.cells then Pruned(At(b.field, q), w.numbers) else At(b.field, q)
  {
    ApplyWing(b, FindWing(b.field, p, sameRow, sameColumn))
  }

  /** With the solver's collinearity tests, which always hold, only the row/column search can fire. */
  lemma OnlyColumnRow(f: Field, p: Pos)
    requires ValidField(f) && InGrid(p)
    ensures var w := FindWing(f, p, IsAtTheSameRow, IsAtTheSameColumn);
      w.Wing? ==> w.kind == ColumnRow
  {
    var w := FindWing(f, p, IsAtTheSameRow, IsAtTheSameColumn);
    if w.Wing? && w.kind != ColumnRow {
      assert false;
    }
  }

  /** `checkWithYWing(pivotCell)` as the solver runs it. Since `isAtTheSameRow` and
      `isAtTheSameColumn` always hold, only the row/column search can fire, so at most one cell
      changes, and, as written, it is the transposed intersection: its row index is the row
      pincer's column index (right of the pivot's column) and its column index is the column
      pincer's row index (below the pivot's row). */
  function CheckWithYWing(b: Board, p: Pos): (r: Board)
    requires ValidField(b.field) && InGrid(p)
    ensures ValidField(r.field) && b.log <= r.log
    ensures |At(b.field, p).candidates| != 2 ==> r == b
    ensures var w := FindWing(b.field, p, IsAtTheSameRow, IsAtTheSameColumn);
      forall q :: InGrid(q) ==>
        At(r.field, q) == if w.Wing? && q in w.cells then Pruned(At(b.field, q), w.numbers) else At(b.field, q)
    ensures forall q :: InGrid(q) && At(r.field, q) != At(b.field, q) ==> q.row > p.col && q.col > p.row
    ensures forall q, q' :: InGrid(q) && InGrid(q') && At(r.field, q) != At(b.field, q) && At(r.field, q') != At(b.field, q') ==> q == q'
  {
    var w := FindWing(b.field, p, IsAtTheSameRow, IsAtTheSameColumn);
    OnlyColumnRow(b.field, p);
    var r := YWing(b, p, IsAtTheSameRow, IsAtTheSameColumn);
    assert |At(b.field, p).candidates| != 2 ==> r == b by {
      if |At(b.field, p).candidates| != 2 {
        FieldExtensionality(r.field, b.field);
      }
    }
    r
  }

  /** What the solver's Y-Wing removes: a number leaves a cell only when a row pincer right of the
      pivot and a column pincer below it both hold it and the pivot does not. */
  lemma YWingRemoves(b: Board, p: Pos, q: Pos, v: int)
    requires ValidField(b.field) && InGrid(p) && InGrid(q)
    requires v in At(b.field, q).candidates && v !in At(CheckWithYWing(b, p).field, q).candidates
    ensures v !in At(b.field, p).candidates
    ensures exists x, y ::
      && InGrid(x) && InGrid(y) && x.row == p.row && x.col > p.col && y.col == p.col && y.row > p.row
      && PincerOf(At(b.field, p), At(b.field, x)) && PincerOf(At(b.field, p), At(b.field, y))
      && v in At(b.field, x).candidates && v in At(b.field, y).candidates
  {
    var w := FindWing(b.field, p, IsAtTheSameRow, IsAtTheSameColumn);
    OnlyColumnRow(b.field, p);
    WingRemoves(At(b.field, p), At(b.field, q), At(CheckWithYWing(b, p).field, q), w.Wing? && q in w.cells,
      At(b.field, w.x), At(b.field, w.y), w.numbers, v);
    assert w.x in RowPincers(b.field, p) && w.y in ColumnPincers(b.field, p);
  }

  /** A number a pruning by a linked pair's shared number takes from a cell is that number, held by
      both pincers and not by the pivot. */
  lemma WingRemoves(pivot: Cell, c: Cell, c': Cell, pruned: bool, x: Cell, y: Cell, numbers: seq<int>, v: int)
    requires c' == if pruned then Pruned(c, numbers) else c
    requires pruned ==> PincerOf(pivot, x) && Links(pivot, x, y) && numbers == Shared(x, y)
    requires v in c.candidates && v !in c'.candidates
    ensures pruned
    ensures v in x.candidates && v in y.candidates && v !in pivot.candidates
  {
    LinksMeaning(pivot, x, y);
    assert v in numbers;
  }

  /** On a well-formed field Y-Wing only narrows, whatever the collinearity tests. */
  lemma YWingNarrows(b: Board, p: Pos, sameRow: seq<Cell> -> bool, sameColumn: seq<Cell> -> bool)
    requires ValidField(b.field) && InGrid(p) && WellFormedField(b.field)
    ensures Narrowed(b.field, YWing(b, p, sameRow, sameColumn).field)
    ensures WellFormedField(YWing(b, p, sameRow, sameColumn).field)
  {
    var w := FindWing(b.field, p, sameRow, sameColumn);
    var r := YWing(b, p, sameRow, sameColumn);
    if w.Wing? {
      PruningNarrows(b.field, r.field, w.cells, w.numbers);
    } else {
      PruningNarrows(b.field, r.field, [], []);
    }
  }

  /** Pruning some cells of a well-formed field by the same numbers narrows it. */
  lemma PruningNarrows(f: Field, f': Field, cells: seq<Pos>, numbers: seq<int>)
    requires ValidField(f) && ValidField(f') && WellFormedField(f)
    requires forall q :: InGrid(q) ==> At(f', q) == if q in cells then Pruned(At(f, q), numbers) else At(f, q)
    ensures Narrowed(f, f') && WellFormedField(f')
  {
    forall q | InGrid(q) ensures Narrows(At(f, q), At(f', q)) {
      PrunedNarrows(At(f, q), numbers);
    }
    EvolvedWellFormed(f, f');
  }
}
