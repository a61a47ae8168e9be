/**
 * Rows and columns seen as one notion: a line of the field along an axis.
 * The pointing and X-Wing strategies of src/composables/sudokuSolver.ts are
 * each written twice, once for rows and once for columns, with the roles of
 * the two indices swapped; the model writes each once, over an `Axis`.
 */
module Axes {
  import opened Grid

  /** Which way a line runs: a row (`field[line][k]`) or a column (`field[k][line]`). */
  datatype Axis = Rows | Columns

  /** The other axis: the lines crossing a row are columns, and conversely. */
  function Flip(a: Axis): Axis {
    if a.Rows? then Columns else Rows
  }

  /** The index of the line along `a` that holds `q`. */
  function LineOf(a: Axis, q: Pos): int {
    if a.Rows? then q.row else q.col
  }

  /** The place of `q` within its line along `a`. */
  function Offset(a: Axis, q: Pos): int {
    if a.Rows? then q.col else q.row
  }

  /** The `k`-th cell of line `line` along `a`. */
  function Cross(a: Axis, line: int, k: int): (q: Pos)
    ensures LineOf(a, q) == line && Offset(a, q) == k
    ensures LineOf(Flip(a), q) == k && Offset(Flip(a), q) == line
  {
    if a.Rows? then Pos(line, k) else Pos(k, line)
  }

  /** The positions of line `line` along `a`, in loop order. */
  function Line(a: Axis, line: int): (ps: seq<Pos>)
    requires 0 <= line < FieldLength
    ensures |ps| == FieldLength && AllInGrid(ps)
    ensures forall k :: 0 <= k < FieldLength ==> ps[k] == Cross(a, line, k)
    ensures forall q :: q in ps <==> InGrid(q) && LineOf(a, q) == line
  {
    if a.Rows? then RowPositions(line) else ColumnPositions(line)
  }
}
