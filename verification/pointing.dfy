/**
 * `checkForPointingNumbers` of src/composables/sudokuSolver.ts: when a candidate
 * of a cell occurs in the cell's block only on the cell's row (column), it is
 * removed from the unset cells of that row (column) outside the block.
 *
 * As written, the sweep skips the line indices from the block's first index up
 * to and including first + 3, so the first cell of the next block along the
 * line is never swept; the model keeps that bound.
 */
module Pointing {
  import opened Wrappers
  import opened Arrays
  import opened Cells
  import opened HiddenNs
  import opened Grid
  import opened Axes

  const PointingTag: string := "PointingNumbers"

  /** `squareCellsToCheck`: the unset cells of `p`'s block other than `p`, row by row. */
  function SquareCellsToCheck(f: Field, p: Pos): (r: seq<Cell>)
    requires ValidField(f) && InGrid(p)
    ensures forall c :: c in r <==> exists q :: InGrid(q) && SameSquare(p, q) && q != p && At(f, q).value.None? && At(f, q) == c
  {
    var ps := Select(f, SquarePositions(p), p, 0, true);
    var r := CellsOf(f, ps);
    assert forall c :: c in r ==> exists q :: InGrid(q) && SameSquare(p, q) && q != p && At(f, q).value.None? && At(f, q) == c by {
      forall c | c in r ensures exists q :: InGrid(q) && SameSquare(p, q) && q != p && At(f, q).value.None? && At(f, q) == c {
        var k :| 0 <= k < |r| && r[k] == c;
        assert ps[k] in ps;
      }
    }
    assert forall q :: InGrid(q) && SameSquare(p, q) && q != p && At(f, q).value.None? ==> At(f, q) in r by {
      forall q | InGrid(q) && SameSquare(p, q) && q != p && At(f, q).value.None? ensures At(f, q) in r {
        var k :| 0 <= k < |ps| && ps[k] == q;
        assert r[k] == At(f, q);
      }
    }
    r
  }

  /** The test of the pass along `a`: `isNumberInSquareJustAtTheSameRow` for rows and
      `isNumberInSquareJustAtTheSameColumn` for columns. */
  function JustOnLine(a: Axis, v: int, cell: Cell, checked: seq<Cell>): bool {
    if a.Rows? then IsNumberInSquareJustAtTheSameRow(v, cell, checked)
    else IsNumberInSquareJustAtTheSameColumn(v, cell, checked)
  }

  /** The cells the pass along `a` sweeps: on `p`'s line, below the block's first index or above
      first + 3. */
  predicate Beyond(a: Axis, p: Pos, q: Pos) {
    var first := SquareFirst(Offset(a, p));
    LineOf(a, q) == LineOf(a, p) && (Offset(a, q) < first || Offset(a, q) > first + SquareLength)
  }

  /** The numbers the pass along `a` removes: the candidates of `cell` from index `i` on that pass the
      test, in order. */
  function PointedFrom(a: Axis, cell: Cell, checked: seq<Cell>, i: nat): (r: seq<int>)
    requires i <= |cell.candidates|
    ensures forall x :: x in r <==> x in cell.candidates[i..] && JustOnLine(a, x, cell, checked)
    decreases |cell.candidates| - i
  {
    if i == |cell.candidates| then []
    else
      assert forall x :: x in cell.candidates[i..] <==> x == cell.candidates[i] || x in cell.candidates[i + 1..];
      var v := cell.candidates[i];
      (if JustOnLine(a, v, cell, checked) then [v] else []) + PointedFrom(a, cell, checked, i + 1)
  }

  /** A candidate `x` of the cell at `p` points along `a`: in `p`'s block it occurs on no other line. */
  predicate Points(a: Axis, f: Field, p: Pos, x: int)
    requires ValidField(f) && InGrid(p)
  {
    x in At(f, p).candidates && JustOnLine(a, x, At(f, p), SquareCellsToCheck(f, p))
  }

  /** The inner `j` loop, from `j` on: every unset cell of `p`'s line beyond the block that holds `v`
      loses it. */
  function SweepFrom(b: Board, a: Axis, p: Pos, v: int, j: nat): (r: Board)
    requires ValidField(b.field) && InGrid(p)
    ensures ValidField(r.field) && b.log <= r.log
    ensures forall q :: InGrid(q) ==>
      At(r.field, q) == if Beyond(a, p, q) && Offset(a, q) >= j && At(b.field, q).value.None? then Pruned(At(b.field, q), [v]) else At(b.field, q)
    decreases FieldLength - j
  {
    if j >= FieldLength then b
    else
      var q := Cross(a, LineOf(a, p), j);
      var first := SquareFirst(Offset(a, p));
      var hit := At(b.field, q).value.None? && (j < first || j > first + SquareLength) && v in At(b.field, q).candidates;
      var b' := if hit then Remove(b, q, [v], PointingTag) else b;
      SweepHit(b, b', a, p, v, j);
      var r := SweepFrom(b', a, p, v, j + 1);
      SweepStep(b.field, b'.field, r.field, a, p, v, j);
      r
  }

  /** One turn of the `j` loop: only the `j`-th cell of the line changes, and only when it lies
      beyond the block and is unset. */
  lemma SweepHit(b: Board, b': Board, a: Axis, p: Pos, v: int, j: nat)
    requires ValidField(b.field) && InGrid(p) && j < FieldLength
    requires var q := Cross(a, LineOf(a, p), j);
      var first := SquareFirst(Offset(a, p));
      var hit := At(b.field, q).value.None? && (j < first || j > first + SquareLength) && v in At(b.field, q).candidates;
      b' == if hit then Remove(b, q, [v], PointingTag) else b
    ensures ValidField(b'.field) && b.log <= b'.log
    ensures forall q :: InGrid(q) ==>
      At(b'.field, q) == if Beyond(a, p, q) && Offset(a, q) == j && At(b.field, q).value.None? then Pruned(At(b.field, q), [v]) else At(b.field, q)
  {
    var q0 := Cross(a, LineOf(a, p), j);
    if v !in At(b.field, q0).candidates {
      PrunedAbsent(At(b.field, q0), [v]);
    }
    forall q | InGrid(q) && Beyond(a, p, q) && Offset(a, q) == j
      ensures q == q0
    {
      assert q == Cross(a, LineOf(a, q), Offset(a, q));
    }
  }

  /** The rest of the loop after one turn is the loop from that turn on. */
  lemma SweepStep(f: Field, f': Field, g: Field, a: Axis, p: Pos, v: int, j: nat)
    requires ValidField(f) && ValidField(f') && ValidField(g) && InGrid(p)
    requires forall q :: InGrid(q) ==>
      At(f', q) == if Beyond(a, p, q) && Offset(a, q) == j && At(f, q).value.None? then Pruned(At(f, q), [v]) else At(f, q)
    requires forall q :: InGrid(q) ==>
      At(g, q) == if Beyond(a, p, q) && Offset(a, q) >= j + 1 && At(f', q).value.None? then Pruned(At(f', q), [v]) else At(f', q)
    ensures forall q :: InGrid(q) ==>
      At(g, q) == if Beyond(a, p, q) && Offset(a, q) >= j && At(f, q).value.None? then Pruned(At(f, q), [v]) else At(f, q)
  {
    forall q | InGrid(q)
      ensures At(g, q) == if Beyond(a, p, q) && Offset(a, q) >= j && At(f, q).value.None? then Pruned(At(f, q), [v]) else At(f, q)
    {
      assert At(f', q).value == At(f, q).value;
    }
  }

  /** The outer `i` loop of the pass along `a`, from `i` on: each unset cell beyond the block loses
      exactly the numbers that point. */
  function PassFrom(b: Board, a: Axis, p: Pos, cell: Cell, checked: seq<Cell>, i: nat): (r: Board)
    requires ValidField(b.field) && InGrid(p) && i <= |cell.candidates|
    ensures ValidField(r.field) && b.log <= r.log
    ensures forall q :: InGrid(q) ==>
      At(r.field, q) == if Beyond(a, p, q) && At(b.field, q).value.None? then Pruned(At(b.field, q), PointedFrom(a, cell, checked, i)) else At(b.field, q)
    decreases |cell.candidates| - i
  {
    if i == |cell.candidates| then
      assert forall q :: InGrid(q) ==> Pruned(At(b.field, q), []) == At(b.field, q) by {
        forall q | InGrid(q) ensures Pruned(At(b.field, q), []) == At(b.field, q) {
          PrunedAbsent(At(b.field, q), []);
        }
      }
      b
    else
      var v := cell.candidates[i];
      var b' := if JustOnLine(a, v, cell, checked) then SweepFrom(b, a, p, v, 0) else b;
      var r := PassFrom(b', a, p, cell, checked, i + 1);
      PassStep(b, b', r, a, p, cell, checked, i);
      r
  }

  lemma PassStep(b: Board, b': Board, r: Board, a: Axis, p: Pos, cell: Cell, checked: seq<Cell>, i: nat)
    requires ValidField(b.field) && ValidField(b'.field) && ValidField(r.field) && InGrid(p)
    requires i < |cell.candidates|
    requires var v := cell.candidates[i];
      forall q :: InGrid(q) ==>
        At(b'.field, q) == if JustOnLine(a, v, cell, checked) && Beyond(a, p, q) && At(b.field, q).value.None? then Pruned(At(b.field, q), [v]) else At(b.field, q)
    requires forall q :: InGrid(q) ==>
      At(r.field, q) == if Beyond(a, p, q) && At(b'.field, q).value.None? then Pruned(At(b'.field, q), PointedFrom(a, cell, checked, i + 1)) else At(b'.field, q)
    ensures forall q :: InGrid(q) ==>
      At(r.field, q) == if Beyond(a, p, q) && At(b.field, q).value.None? then Pruned(At(b.field, q), PointedFrom(a, cell, checked, i)) else At(b.field, q)
  {
    var v := cell.candidates[i];
    var rest := PointedFrom(a, cell, checked, i + 1);
    forall q | InGrid(q) && Beyond(a, p, q) && At(b.field, q).value.None?
      ensures At(r.field, q) == Pruned(At(b.field, q), PointedFrom(a, cell, checked, i))
    {
      assert At(b'.field, q).value == At(b.field, q).value;
      if JustOnLine(a, v, cell, checked) {
        assert PointedFrom(a, cell, checked, i) == [v] + rest;
        PrunedTwice(At(b.field, q), [v], rest);
      } else {
        assert PointedFrom(a, cell, checked, i) == rest;
      }
    }
  }

  /** The numbers the pass along `a` removes, read from the field as the pass starts. */
  function Pointed(a: Axis, f: Field, p: Pos): seq<int>
    requires ValidField(f) && InGrid(p)
  {
    PointedFrom(a, At(f, p), SquareCellsToCheck(f, p), 0)
  }

  /** `checkForPointingNumbers(cell)`: the row pass, then the column pass. An unset cell of the row
      (column) beyond the block loses the candidates of the cell that occur in the block on that row
      (column) only; every other cell is left alone. */
  function CheckForPointingNumbers(b: Board, p: Pos): (r: Board)
    requires ValidField(b.field) && InGrid(p)
    ensures ValidField(r.field) && b.log <= r.log
    ensures forall q :: InGrid(q) ==>
      At(r.field, q) == if Beyond(Rows, p, q) && At(b.field, q).value.None? then Pruned(At(b.field, q), Pointed(Rows, b.field, p))
      else if Beyond(Columns, p, q) && At(b.field, q).value.None? then Pruned(At(b.field, q), Pointed(Columns, b.field, p))
      else At(b.field, q)
  {
    var cell := At(b.field, p);
    var checked := SquareCellsToCheck(b.field, p);
    var b1 := PassFrom(b, Rows, p, cell, checked, 0);
    assert forall q :: Beyond(Rows, p, q) ==> !Beyond(Columns, p, q);
    PassFrom(b1, Columns, p, cell, checked, 0)
  }

  /** What pointing leaves alone: the cell's block, every cell off its row and column, and, as
      written, the first cell of the next block along its row and along its column. */
  lemma PointingLeavesAlone(b: Board, p: Pos, q: Pos)
    requires ValidField(b.field) && InGrid(p) && InGrid(q)
    requires || SameSquare(p, q)
             || (q.row != p.row && q.col != p.col)
             || (q.row == p.row && q.col == SquareFirst(p.col) + SquareLength)
             || (q.col == p.col && q.row == SquareFirst(p.row) + SquareLength)
    ensures At(CheckForPointingNumbers(b, p).field, q) == At(b.field, q)
  {
    assert !Beyond(Rows, p, q) && !Beyond(Columns, p, q);
  }

  /** Which candidates pointing removes: `x` leaves the cell at `q` exactly when `q` is unset, lies on
      `p`'s row (column) beyond the block and `x` points along that row (column). */
  lemma PointingRemoves(b: Board, p: Pos, q: Pos, x: int)
    requires ValidField(b.field) && InGrid(p) && InGrid(q)
    requires x in At(b.field, q).candidates
    ensures x !in At(CheckForPointingNumbers(b, p).field, q).candidates <==>
      At(b.field, q).value.None? &&
      ((Beyond(Rows, p, q) && Points(Rows, b.field, p, x)) || (Beyond(Columns, p, q) && Points(Columns, b.field, p, x)))
  {
    var r := CheckForPointingNumbers(b, p);
    if Beyond(Rows, p, q) && At(b.field, q).value.None? {
      assert x in Pointed(Rows, b.field, p) <==> Points(Rows, b.field, p, x);
    } else if Beyond(Columns, p, q) && At(b.field, q).value.None? {
      assert x in Pointed(Columns, b.field, p) <==> Points(Columns, b.field, p, x);
    }
  }

  /** On a well-formed field pointing only narrows. */
  lemma PointingNarrows(b: Board, p: Pos)
    requires ValidField(b.field) && InGrid(p) && WellFormedField(b.field)
    ensures Narrowed(b.field, CheckForPointingNumbers(b, p).field)
    ensures WellFormedField(CheckForPointingNumbers(b, p).field)
  {
    var r := CheckForPointingNumbers(b, p);
    forall q | InGrid(q) ensures Narrows(At(b.field, q), At(r.field, q)) {
      PrunedNarrows(At(b.field, q), Pointed(Rows, b.field, p));
      PrunedNarrows(At(b.field, q), Pointed(Columns, b.field, p));
    }
    EvolvedWellFormed(b.field, r.field);
  }
}
