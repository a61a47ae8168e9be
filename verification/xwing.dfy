/**
 * `checkWithXWing` of src/composables/sudokuSolver.ts: `checkWithXWingRows`
 * followed by `checkWithXWingColumns`. The two passes are one pass over an
 * `Axis`: for the row pass the cell's line is its row and the crossing lines
 * are columns; for the column pass the other way round.
 *
 * As written, both passes pick the partner cells on the cell's own line by
 * comparing their index along the line with the cell's COLUMN index; for the
 * column pass that compares a row index with a column index. The model keeps
 * that comparison (`p.col` below) for both passes.
 */
module XWing {
  import opened Wrappers
  import opened Arrays
  import opened Cells
  import opened HiddenNs
  import opened Grid
  import opened Axes

  function Tag(a: Axis): string {
    if a.Rows? then "X-wing row" else "X-wing column"
  }

  /** What a pass along `a` for the cell at `p` may do to the field: `p`'s line is left alone, a
      changed cell lies on the crossing line through `p` or on a crossing line whose index is above
      `p.col`, a cell only loses candidates of `p`, and a well-formed field is only narrowed. */
  ghost predicate Confined(a: Axis, p: Pos, f: Field, f': Field)
    requires ValidField(f) && ValidField(f') && InGrid(p)
  {
    && Placed(a, p, f, f')
    && DropsOnly(f, f', At(f, p).candidates)
    && Shrinks(f, f')
    && (WellFormedField(f) ==> Narrowed(f, f') && WellFormedField(f'))
  }

  /** Where a pass along `a` for `p` may change the field. */
  ghost predicate Placed(a: Axis, p: Pos, f: Field, f': Field)
    requires ValidField(f) && ValidField(f') && InGrid(p)
  {
    forall q :: InGrid(q) && At(f', q) != At(f, q) ==>
      LineOf(a, q) != LineOf(a, p) && (Offset(a, q) == Offset(a, p) || Offset(a, q) > p.col)
  }

  /** Every candidate a cell loses between `f` and `f'` is one of `vs`. */
  ghost predicate DropsOnly(f: Field, f': Field, vs: seq<int>)
    requires ValidField(f) && ValidField(f')
  {
    forall q, x :: InGrid(q) && x in At(f, q).candidates && x !in At(f', q).candidates ==> x in vs
  }

  /** No cell gains a candidate between `f` and `f'`. */
  ghost predicate Shrinks(f: Field, f': Field)
    requires ValidField(f) && ValidField(f')
  {
    forall q, x :: InGrid(q) && x in At(f', q).candidates ==> x in At(f, q).candidates
  }

  lemma ConfinedReflexive(a: Axis, p: Pos, f: Field)
    requires ValidField(f) && InGrid(p)
    ensures Confined(a, p, f, f)
  {
    if WellFormedField(f) {
      forall q | InGrid(q) ensures Narrows(At(f, q), At(f, q)) {
      }
    }
  }

  lemma ConfinedTransitive(a: Axis, p: Pos, f: Field, g: Field, h: Field)
    requires ValidField(f) && ValidField(g) && ValidField(h) && InGrid(p)
    requires Confined(a, p, f, g) && Confined(a, p, g, h)
    ensures Confined(a, p, f, h)
  {
    assert At(g, p) == At(f, p);
    if WellFormedField(f) {
      NarrowedTransitive(f, g, h);
    }
  }

  /** A position is determined by its line and its place in the line. */
  lemma Determined(a: Axis, s: Pos, t: Pos)
    requires LineOf(a, s) == LineOf(a, t) && Offset(a, s) == Offset(a, t)
    ensures s == t
  {
  }

  /** The positions a pass checks against `p` lie on `p`'s line past index `p.col`, other than `p`. */
  predicate PastCell(a: Axis, p: Pos, toCheck: seq<Pos>) {
    forall q :: q in toCheck ==> InGrid(q) && LineOf(a, q) == LineOf(a, p) && Offset(a, q) > p.col && q != p
  }

  /** The cells the elimination loop reaches from `m` on: on the crossing lines through `p` and `q`,
      at index `m` or later, other than the four corners. */
  predicate Swept(a: Axis, p: Pos, pj: Pos, q: Pos, qj: Pos, m: int, s: Pos) {
    && (Offset(a, s) == Offset(a, p) || Offset(a, s) == Offset(a, q))
    && LineOf(a, s) >= m
    && s != p && s != pj && s != q && s != qj
  }

  /** `if (cell.isEmpty && cell !== x && cell !== y) cell.removeOccupiedValues([v], tag)`. */
  function RemoveUnless(b: Board, s: Pos, x: Pos, y: Pos, v: int, tag: string): (r: Board)
    requires ValidField(b.field) && InGrid(s)
    ensures ValidField(r.field) && b.log <= r.log
    ensures forall t :: InGrid(t) ==>
      At(r.field, t) == if t == s && s != x && s != y && At(b.field, s).value.None? then Pruned(At(b.field, s), [v]) else At(b.field, t)
  {
    if IsEmpty(At(b.field, s)) && s != x && s != y then Remove(b, s, [v], tag) else b
  }

  /** The elimination loop over `m`, from `m` on: on the crossing lines through `p` and through `q`,
      every unset cell other than the four corners `p`, `pj`, `q`, `qj` loses `v`. */
  function Eliminate(b: Board, a: Axis, p: Pos, pj: Pos, q: Pos, qj: Pos, v: int, m: nat): (r: Board)
    requires ValidField(b.field) && InGrid(p) && InGrid(q)
    requires Offset(a, pj) == Offset(a, p) && Offset(a, qj) == Offset(a, q) && Offset(a, p) != Offset(a, q)
    ensures ValidField(r.field) && b.log <= r.log
    ensures forall s :: InGrid(s) ==>
      At(r.field, s) == if Swept(a, p, pj, q, qj, m, s) && At(b.field, s).value.None? then Pruned(At(b.field, s), [v]) else At(b.field, s)
    decreases FieldLength - m
  {
    if m >= FieldLength then b
    else
      var s1 := Cross(Flip(a), Offset(a, p), m);
      var b1 := RemoveUnless(b, s1, p, pj, v, Tag(a));
      var s2 := Cross(Flip(a), Offset(a, q), m);
      var b2 := RemoveUnless(b1, s2, q, qj, v, Tag(a));
      var r := Eliminate(b2, a, p, pj, q, qj, v, m + 1);
      EliminateStep(b, b1, b2, r, a, p, pj, q, qj, v, m);
      r
  }

  lemma EliminateStep(b: Board, b1: Board, b2: Board, r: Board, a: Axis, p: Pos, pj: Pos, q: Pos, qj: Pos, v: int, m: nat)
    requires ValidField(b.field) && ValidField(b1.field) && ValidField(b2.field) && ValidField(r.field)
    requires InGrid(p) && InGrid(q) && m < FieldLength
    requires Offset(a, pj) == Offset(a, p) && Offset(a, qj) == Offset(a, q) && Offset(a, p) != Offset(a, q)
    requires var s1 := Cross(Flip(a), Offset(a, p), m);
      forall t :: InGrid(t) ==>
        At(b1.field, t) == if t == s1 && s1 != p && s1 != pj && At(b.field, s1).value.None? then Pruned(At(b.field, s1), [v]) else At(b.field, t)
    requires var s2 := Cross(Flip(a), Offset(a, q), m);
      forall t :: InGrid(t) ==>
        At(b2.field, t) == if t == s2 && s2 != q && s2 != qj && At(b1.field, s2).value.None? then Pruned(At(b1.field, s2), [v]) else At(b1.field, t)
    requires forall s :: InGrid(s) ==>
      At(r.field, s) == if Swept(a, p, pj, q, qj, m + 1, s) && At(b2.field, s).value.None? then Pruned(At(b2.field, s), [v]) else At(b2.field, s)
    ensures forall s :: InGrid(s) ==>
      At(r.field, s) == if Swept(a, p, pj, q, qj, m, s) && At(b.field, s).value.None? then Pruned(At(b.field, s), [v]) else At(b.field, s)
  {
    var s1 := Cross(Flip(a), Offset(a, p), m);
    var s2 := Cross(Flip(a), Offset(a, q), m);
    assert s1 != s2;
    forall s | InGrid(s)
      ensures At(r.field, s) == if Swept(a, p, pj, q, qj, m, s) && At(b.field, s).value.None? then Pruned(At(b.field, s), [v]) else At(b.field, s)
    {
      if s == s1 {
        assert s1 != q && s1 != qj;
      } else if s == s2 {
        assert s2 != p && s2 != pj;
      } else if Swept(a, p, pj, q, qj, m, s) {
        if LineOf(a, s) == m {
          if Offset(a, s) == Offset(a, p) {
            Determined(a, s, s1);
          } else {
            Determined(a, s, s2);
          }
        }
        assert Swept(a, p, pj, q, qj, m + 1, s);
      }
    }
  }

  /** An elimination for a candidate `v` of `p`, with `q` past `p` on `p`'s line and the other two
      corners on a later line, stays within what a pass may do. */
  lemma EliminateConfined(b: Board, r: Board, a: Axis, p: Pos, pj: Pos, q: Pos, qj: Pos, v: int)
    requires ValidField(b.field) && ValidField(r.field) && InGrid(p) && InGrid(q)
    requires LineOf(a, q) == LineOf(a, p) && Offset(a, q) > p.col && q != p
    requires v in At(b.field, p).candidates
    requires forall s :: InGrid(s) ==>
      At(r.field, s) == if Swept(a, p, pj, q, qj, 0, s) && At(b.field, s).value.None? then Pruned(At(b.field, s), [v]) else At(b.field, s)
    ensures Confined(a, p, b.field, r.field)
  {
    EliminatePlaced(b, r, a, p, pj, q, qj, v);
    PrunedOrKept(b.field, r.field, v);
    assert DropsOnly(b.field, r.field, At(b.field, p).candidates);
  }

  lemma EliminatePlaced(b: Board, r: Board, a: Axis, p: Pos, pj: Pos, q: Pos, qj: Pos, v: int)
    requires ValidField(b.field) && ValidField(r.field) && InGrid(p) && InGrid(q)
    requires LineOf(a, q) == LineOf(a, p) && Offset(a, q) > p.col && q != p
    requires forall s :: InGrid(s) ==>
      At(r.field, s) == if Swept(a, p, pj, q, qj, 0, s) && At(b.field, s).value.None? then Pruned(At(b.field, s), [v]) else At(b.field, s)
    ensures Placed(a, p, b.field, r.field)
    ensures forall s :: InGrid(s) ==> At(r.field, s) == At(b.field, s) || At(r.field, s) == Pruned(At(b.field, s), [v])
  {
    forall s | InGrid(s) && At(r.field, s) != At(b.field, s)
      ensures LineOf(a, s) != LineOf(a, p) && (Offset(a, s) == Offset(a, p) || Offset(a, s) > p.col)
    {
      assert Swept(a, p, pj, q, qj, 0, s);
      if LineOf(a, s) == LineOf(a, p) {
        if Offset(a, s) == Offset(a, p) {
          Determined(a, s, p);
        } else {
          Determined(a, s, q);
        }
      }
    }
  }

  /** A field in which every cell is kept or has `v` pruned loses only `v`, and only narrows when
      well formed. */
  lemma PrunedOrKept(f: Field, f': Field, v: int)
    requires ValidField(f) && ValidField(f')
    requires forall s :: InGrid(s) ==> At(f', s) == At(f, s) || At(f', s) == Pruned(At(f, s), [v])
    ensures DropsOnly(f, f', [v]) && Shrinks(f, f')
    ensures WellFormedField(f) ==> Narrowed(f, f') && WellFormedField(f')
  {
    if WellFormedField(f) {
      forall s | InGrid(s) ensures Narrows(At(f, s), At(f', s)) {
        PrunedNarrows(At(f, s), [v]);
      }
      EvolvedWellFormed(f, f');
    }
  }

  /** The X-Wing condition for `v` with the corners `p`, `q` on `p`'s line and `pj`, `qj` on line
      `j`: `qj` is unset, `q` and `qj` hold `v`, and no other unset cell of either line does. */
  predicate Fires(f: Field, v: int, all: seq<Pos>, yAll: seq<Pos>, q: Pos, qj: Pos)
    requires ValidField(f) && AllInGrid(all) && AllInGrid(yAll) && InGrid(q) && InGrid(qj)
  {
    && IsEmpty(At(f, qj))
    && v in At(f, q).candidates
    && v in At(f, qj).candidates
    && !IsNumberInOtherCells(v, CellsOf(f, Without(all, q)))
    && !IsNumberInOtherCells(v, CellsOf(f, Without(yAll, qj)))
  }

  /** The `k` loop, from `k` on, for the candidate `v` and the line `j`. */
  function PairsFrom(b: Board, a: Axis, p: Pos, all: seq<Pos>, toCheck: seq<Pos>, v: int, j: int, yAll: seq<Pos>, k: nat): (r: Board)
    requires ValidField(b.field) && InGrid(p) && 0 <= j < FieldLength
    requires AllInGrid(all) && AllInGrid(yAll) && PastCell(a, p, toCheck)
    requires v in At(b.field, p).candidates
    ensures ValidField(r.field) && b.log <= r.log
    ensures Confined(a, p, b.field, r.field)
    decreases |toCheck| - k
  {
    if k >= |toCheck| then
      ConfinedReflexive(a, p, b.field);
      b
    else
      var q := toCheck[k];
      assert q in toCheck;
      var pj := Cross(a, j, Offset(a, p));
      var qj := Cross(a, j, Offset(a, q));
      assert Offset(a, p) != Offset(a, q) by {
        if Offset(a, p) == Offset(a, q) {
          Determined(a, p, q);
        }
      }
      if Fires(b.field, v, all, yAll, q, qj) then
        var b' := Eliminate(b, a, p, pj, q, qj, v, 0);
        EliminateConfined(b, b', a, p, pj, q, qj, v);
        var r := PairsFrom(b', a, p, all, toCheck, v, j, yAll, k + 1);
        ConfinedTransitive(a, p, b.field, b'.field, r.field);
        r
      else
        PairsFrom(b, a, p, all, toCheck, v, j, yAll, k + 1)
  }

  /** When the X-Wing condition holds for the `k`-th partner, `v` leaves every unset cell of the two
      crossing lines through `p` and that partner other than the four corners, and later steps of the
      loop never give it back. */
  lemma {:induction false} FiringEliminates(b: Board, a: Axis, p: Pos, all: seq<Pos>, toCheck: seq<Pos>, v: int, j: int, yAll: seq<Pos>, k: nat)
    requires ValidField(b.field) && InGrid(p) && 0 <= j < FieldLength
    requires AllInGrid(all) && AllInGrid(yAll) && PastCell(a, p, toCheck)
    requires v in At(b.field, p).candidates
    requires k < |toCheck|
    requires InGrid(toCheck[k])
    requires Fires(b.field, v, all, yAll, toCheck[k], Cross(a, j, Offset(a, toCheck[k])))
    ensures forall s ::
      InGrid(s) && At(b.field, s).value.None?
      && Swept(a, p, Cross(a, j, Offset(a, p)), toCheck[k], Cross(a, j, Offset(a, toCheck[k])), 0, s)
      ==> v !in At(PairsFrom(b, a, p, all, toCheck, v, j, yAll, k).field, s).candidates
  {
    var q := toCheck[k];
    assert q in toCheck;
    var pj := Cross(a, j, Offset(a, p));
    var qj := Cross(a, j, Offset(a, q));
    assert Offset(a, p) != Offset(a, q) by {
      if Offset(a, p) == Offset(a, q) {
        Determined(a, p, q);
      }
    }
    var b' := Eliminate(b, a, p, pj, q, qj, v, 0);
    EliminateRemoves(b, b', a, p, pj, q, qj, v);
  }

  /** After an elimination for `v`, no swept cell that was unset still holds `v`. */
  lemma EliminateRemoves(b: Board, r: Board, a: Axis, p: Pos, pj: Pos, q: Pos, qj: Pos, v: int)
    requires ValidField(b.field) && ValidField(r.field)
    requires forall s :: InGrid(s) ==>
      At(r.field, s) == if Swept(a, p, pj, q, qj, 0, s) && At(b.field, s).value.None? then Pruned(At(b.field, s), [v]) else At(b.field, s)
    ensures forall s :: InGrid(s) && At(b.field, s).value.None? && Swept(a, p, pj, q, qj, 0, s) ==> v !in At(r.field, s).candidates
  {
  }

  /** The `j` loop, from `j` on, for the candidate `v`: line `j` is tried when its cell on `p`'s
      crossing line is unset and holds `v`. */
  function LinesFrom(b: Board, a: Axis, p: Pos, all: seq<Pos>, toCheck: seq<Pos>, v: int, j: nat): (r: Board)
    requires ValidField(b.field) && InGrid(p)
    requires AllInGrid(all) && PastCell(a, p, toCheck)
    requires v in At(b.field, p).candidates
    ensures ValidField(r.field) && b.log <= r.log
    ensures Confined(a, p, b.field, r.field)
    decreases FieldLength - j
  {
    if j >= FieldLength then
      ConfinedReflexive(a, p, b.field);
      b
    else
      var pj := Cross(a, j, Offset(a, p));
      if IsEmpty(At(b.field, pj)) && v in At(b.field, pj).candidates then
        var yAll := Select(b.field, Line(a, j), pj, 0, true);
        var b' := PairsFrom(b, a, p, all, toCheck, v, j, yAll, 0);
        var r := LinesFrom(b', a, p, all, toCheck, v, j + 1);
        ConfinedTransitive(a, p, b.field, b'.field, r.field);
        r
      else
        LinesFrom(b, a, p, all, toCheck, v, j + 1)
  }

  /** The `i` loop over the candidates of `p`, from `i` on; the lines tried are those after `p`'s. */
  function NumbersFrom(b: Board, a: Axis, p: Pos, all: seq<Pos>, toCheck: seq<Pos>, i: nat): (r: Board)
    requires ValidField(b.field) && InGrid(p)
    requires AllInGrid(all) && PastCell(a, p, toCheck)
    ensures ValidField(r.field) && b.log <= r.log
    ensures Confined(a, p, b.field, r.field)
    decreases |At(b.field, p).candidates| - i
  {
    if i >= |At(b.field, p).candidates| then
      ConfinedReflexive(a, p, b.field);
      b
    else
      var b' := LinesFrom(b, a, p, all, toCheck, At(b.field, p).candidates[i], LineOf(a, p) + 1);
      var r := NumbersFrom(b', a, p, all, toCheck, i + 1);
      ConfinedTransitive(a, p, b.field, b'.field, r.field);
      r
  }

  /** The unset cells of `p`'s line other than `p` whose index along the line is above `p.col`. */
  function CellsToCheck(f: Field, a: Axis, p: Pos): (r: seq<Pos>)
    requires ValidField(f) && InGrid(p)
    ensures AllInGrid(r) && PastCell(a, p, r)
    ensures forall q :: q in r <==> InGrid(q) && LineOf(a, q) == LineOf(a, p) && Offset(a, q) > p.col && q != p && At(f, q).value.None?
  {
    var line := Line(a, LineOf(a, p));
    var tail := line[p.col + 1..];
    assert forall q :: q in tail <==> InGrid(q) && LineOf(a, q) == LineOf(a, p) && Offset(a, q) > p.col by {
      forall q | q in tail ensures InGrid(q) && LineOf(a, q) == LineOf(a, p) && Offset(a, q) > p.col {
        var k :| 0 <= k < |tail| && tail[k] == q;
        assert q == line[p.col + 1 + k];
      }
      forall q | InGrid(q) && LineOf(a, q) == LineOf(a, p) && Offset(a, q) > p.col ensures q in tail {
        assert q == line[Offset(a, q)];
        assert tail[Offset(a, q) - p.col - 1] == q;
      }
    }
    Select(f, tail, p, 0, true)
  }

  /** `checkWithXWingRows` (along `Rows`) or `checkWithXWingColumns` (along `Columns`). */
  function XWingPass(b: Board, p: Pos, a: Axis): (r: Board)
    requires ValidField(b.field) && InGrid(p)
    ensures ValidField(r.field) && b.log <= r.log
    ensures Confined(a, p, b.field, r.field)
    ensures CellsToCheck(b.field, a, p) == [] ==> r == b
  {
    var all := Select(b.field, Line(a, LineOf(a, p)), p, 0, true);
    var toCheck := CellsToCheck(b.field, a, p);
    if toCheck == [] then
      ConfinedReflexive(a, p, b.field);
      b
    else NumbersFrom(b, a, p, all, toCheck, 0)
  }

  /** `checkWithXWing(cell)`: the row pass, then the column pass. The cell never changes; a changed
      cell is off the cell's row at or right of its column (row pass), or off its column and, as
      written, on its row or below row `p.col` (column pass); cells only lose candidates of the cell,
      and a well-formed field is only narrowed. */
  function CheckWithXWing(b: Board, p: Pos): (r: Board)
    requires ValidField(b.field) && InGrid(p)
    ensures ValidField(r.field) && b.log <= r.log
    ensures At(r.field, p) == At(b.field, p)
    ensures forall q :: InGrid(q) && At(r.field, q) != At(b.field, q) ==>
      || (q.row != p.row && q.col >= p.col)
      || (q.col != p.col && (q.row == p.row || q.row > p.col))
    ensures DropsOnly(b.field, r.field, At(b.field, p).candidates)
    ensures WellFormedField(b.field) ==> Narrowed(b.field, r.field) && WellFormedField(r.field)
  {
    var b1 := XWingPass(b, p, Rows);
    var r := XWingPass(b1, p, Columns);
    XWingCompose(b, b1, r, p);
    r
  }

  lemma XWingCompose(b: Board, b1: Board, r: Board, p: Pos)
    requires ValidField(b.field) && ValidField(b1.field) && ValidField(r.field) && InGrid(p)
    requires Confined(Rows, p, b.field, b1.field) && Confined(Columns, p, b1.field, r.field)
    ensures At(r.field, p) == At(b.field, p)
    ensures forall q :: InGrid(q) && At(r.field, q) != At(b.field, q) ==>
      || (q.row != p.row && q.col >= p.col)
      || (q.col != p.col && (q.row == p.row || q.row > p.col))
    ensures DropsOnly(b.field, r.field, At(b.field, p).candidates)
    ensures WellFormedField(b.field) ==> Narrowed(b.field, r.field) && WellFormedField(r.field)
  {
    assert Placed(Rows, p, b.field, b1.field) && Placed(Columns, p, b1.field, r.field);
    assert At(b1.field, p) == At(b.field, p);
    assert At(r.field, p) == At(b1.field, p);
    forall q | InGrid(q) && At(r.field, q) != At(b.field, q)
      ensures || (q.row != p.row && q.col >= p.col)
              || (q.col != p.col && (q.row == p.row || q.row > p.col))
    {
      if At(b1.field, q) == At(b.field, q) {
        assert At(r.field, q) != At(b1.field, q);
      }
    }
    assert DropsOnly(b.field, b1.field, At(b.field, p).candidates);
    assert DropsOnly(b1.field, r.field, At(b.field, p).candidates);
    if WellFormedField(b.field) {
      NarrowedTransitive(b.field, b1.field, r.field);
    }
  }
}
