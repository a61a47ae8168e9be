/**
 * The Update-Notes strategy of src/composables/sudokuSolver.ts:
 * `checkCellSurroundings` and `checkAllCellsSurroundings`.
 */
module Notes {
  import opened Wrappers
  import opened Arrays
  import opened Cells
  import opened Grid

  /** The tag of the log lines this strategy writes. */
  const SurroundingsTag: string := "existed values in row, column and square"

  /** Some cell sharing a row, a column or a block with `p` holds the value `x`. */
  ghost predicate OccupiedAround(f: Field, p: Pos, x: int)
    requires ValidField(f) && InGrid(p)
  {
    exists q :: InGrid(q) && SameUnit(p, q) && At(f, q).value == Some(x)
  }

  /** The first loop of `checkCellSurroundings`: `p`'s row and column, interleaved index by index. */
  function LinePositions(p: Pos): (ps: seq<Pos>)
    requires InGrid(p)
    ensures AllInGrid(ps)
    ensures forall q :: q in ps <==> InGrid(q) && (q.row == p.row || q.col == p.col)
  {
    var ps := seq(2 * FieldLength, k => if k % 2 == 0 then Pos(p.row, k / 2) else Pos(k / 2, p.col));
    forall q | InGrid(q) && (q.row == p.row || q.col == p.col) ensures q in ps {
      if q.row == p.row {
        assert ps[2 * q.col] == q;
      } else {
        assert ps[2 * q.row + 1] == q;
      }
    }
    ps
  }

  /** The values set at the listed positions, in order (`if (value !== undefined) push(value)`). */
  function ValuesOf(f: Field, ps: seq<Pos>): (r: seq<int>)
    requires ValidField(f) && AllInGrid(ps)
    ensures forall x :: x in r <==> exists q :: q in ps && At(f, q).value == Some(x)
    decreases |ps|
  {
    if ps == [] then []
    else
      var rest := ValuesOf(f, ps[1..]);
      assert forall q :: q in ps <==> q == ps[0] || q in ps[1..];
      (if At(f, ps[0]).value.Some? then [At(f, ps[0]).value.value] else []) + rest
  }

  /** The numbers `checkCellSurroundings` collects: the values of `p`'s row and column, then of its block. */
  function OccupiedNumbers(f: Field, p: Pos): (r: seq<int>)
    requires ValidField(f) && InGrid(p)
    ensures forall x :: x in r <==> OccupiedAround(f, p, x)
  {
    var ps := LinePositions(p) + SquarePositions(p);
    UnitsCovered(p, ps);
    ValuesOf(f, ps)
  }

  /** The row and column of `p` followed by its block hold exactly the cells that share a unit with `p`. */
  lemma UnitsCovered(p: Pos, ps: seq<Pos>)
    requires InGrid(p) && ps == LinePositions(p) + SquarePositions(p)
    ensures forall q :: q in ps <==> InGrid(q) && SameUnit(p, q)
  {
    forall q ensures q in ps <==> InGrid(q) && SameUnit(p, q) {
      assert q in ps <==> q in LinePositions(p) || q in SquarePositions(p);
    }
  }

  /** Two fields with the same values everywhere. */
  ghost predicate SameValues(f: Field, g: Field)
    requires ValidField(f) && ValidField(g)
  {
    forall q :: InGrid(q) ==> At(f, q).value == At(g, q).value
  }

  /** What `checkCellSurroundings` collects depends only on the values of the field. */
  lemma {:induction false} ValuesOfSameValues(f: Field, g: Field, ps: seq<Pos>)
    requires ValidField(f) && ValidField(g) && AllInGrid(ps) && SameValues(f, g)
    ensures ValuesOf(f, ps) == ValuesOf(g, ps)
    decreases |ps|
  {
    if ps != [] {
      ValuesOfSameValues(f, g, ps[1..]);
    }
  }

  lemma OccupiedSameValues(f: Field, g: Field, p: Pos)
    requires ValidField(f) && ValidField(g) && InGrid(p) && SameValues(f, g)
    ensures OccupiedNumbers(f, p) == OccupiedNumbers(g, p)
  {
    ValuesOfSameValues(f, g, LinePositions(p) + SquarePositions(p));
  }

  /** `checkCellSurroundings(cell)`: drop from the cell at `p` every number set in its row, column or
      block. Only that cell changes, and afterwards (when it has no value) none of its candidates is
      set around it. */
  function CheckCellSurroundings(b: Board, p: Pos): (r: Board)
    requires ValidField(b.field) && InGrid(p)
    ensures ValidField(r.field) && b.log <= r.log
    ensures forall q :: InGrid(q) && q != p ==> At(r.field, q) == At(b.field, q)
    ensures At(r.field, p).value == At(b.field, p).value
    ensures Falsy(At(b.field, p).value) ==>
      forall x :: x in At(r.field, p).candidates <==> x in At(b.field, p).candidates && !OccupiedAround(b.field, p, x)
    ensures WellFormedField(b.field) ==> Narrowed(b.field, r.field) && WellFormedField(r.field)
  {
    var r := Remove(b, p, OccupiedNumbers(b.field, p), SurroundingsTag);
    assert WellFormedField(b.field) ==> Narrowed(b.field, r.field) && WellFormedField(r.field) by {
      if WellFormedField(b.field) {
        RemoveAllNarrowsOne(b, p, OccupiedNumbers(b.field, p));
      }
    }
    r
  }

  /** Removing numbers from one cell of a well-formed field narrows it. */
  lemma RemoveAllNarrowsOne(b: Board, p: Pos, numbers: seq<int>)
    requires ValidField(b.field) && InGrid(p) && WellFormedField(b.field)
    ensures Narrowed(b.field, Remove(b, p, numbers, SurroundingsTag).field)
    ensures WellFormedField(Remove(b, p, numbers, SurroundingsTag).field)
  {
    var r := Remove(b, p, numbers, SurroundingsTag);
    PrunedNarrows(At(b.field, p), numbers);
    EvolvedWellFormed(b.field, r.field);
  }

  /** A cell is settled when pruning it by the numbers set around it changes nothing. */
  ghost predicate SettledAt(f: Field, q: Pos)
    requires ValidField(f) && InGrid(q)
  {
    Pruned(At(f, q), OccupiedNumbers(f, q)) == At(f, q)
  }

  /** A settled cell without a value has no candidate that is set in its row, column or block. */
  lemma SettledMeaning(f: Field, q: Pos)
    requires ValidField(f) && InGrid(q) && Falsy(At(f, q).value)
    ensures SettledAt(f, q) <==> forall x :: x in At(f, q).candidates ==> !OccupiedAround(f, q, x)
  {
    var c := At(f, q);
    var o := OccupiedNumbers(f, q);
    if forall x :: x in c.candidates ==> !OccupiedAround(f, q, x) {
      assert forall x :: x in c.candidates ==> NotIn(o)(x);
      FilterKeepsAll(c.candidates, NotIn(o));
    }
  }

  /** One iteration of `checkAllCellsSurroundings`: a cell without a (truthy) value is pruned. */
  function NotesStep(b: Board, q: Pos): (r: Board)
    requires ValidField(b.field) && InGrid(q)
    ensures ValidField(r.field) && b.log <= r.log
    ensures forall q' :: InGrid(q') && q' != q ==> At(r.field, q') == At(b.field, q')
    ensures SameValues(b.field, r.field) && SettledAt(r.field, q)
    ensures SettledAt(b.field, q) ==> r == b
    ensures WellFormedField(b.field) ==> Narrowed(b.field, r.field) && WellFormedField(r.field)
  {
    var r := if Falsy(At(b.field, q).value) then CheckCellSurroundings(b, q) else b;
    assert SettledAt(r.field, q) by {
      OccupiedSameValues(b.field, r.field, q);
      PrunedIdempotent(At(b.field, q), OccupiedNumbers(b.field, q));
    }
    r
  }

  /** Distinct steps of the row-major sweep visit distinct cells. */
  lemma PosAtInjective(k: int, k': int)
    requires 0 <= k < FieldLength * FieldLength && 0 <= k' < FieldLength * FieldLength && k != k'
    ensures PosAt(k) != PosAt(k')
  {
  }

  /** `checkAllCellsSurroundings()` from the `k`-th cell of the row-major sweep on. The values never
      change, every visited cell ends settled, and the cells before `k` are untouched. */
  function NotesFrom(b: Board, k: nat): (r: Board)
    requires ValidField(b.field) && k <= FieldLength * FieldLength
    ensures ValidField(r.field) && b.log <= r.log
    ensures SameValues(b.field, r.field)
    ensures forall k' :: 0 <= k' < k ==> At(r.field, PosAt(k')) == At(b.field, PosAt(k'))
    ensures forall k' :: k <= k' < FieldLength * FieldLength ==> SettledAt(r.field, PosAt(k'))
    ensures WellFormedField(b.field) ==> Narrowed(b.field, r.field) && WellFormedField(r.field)
    decreases FieldLength * FieldLength - k
  {
    if k == FieldLength * FieldLength then b
    else
      var b' := NotesStep(b, PosAt(k));
      var r := NotesFrom(b', k + 1);
      NotesFromStep(b, b', r, k);
      r
  }

  /** The inductive step of `NotesFrom`: what one step and the rest of the sweep give together. */
  lemma NotesFromStep(b: Board, b': Board, r: Board, k: nat)
    requires ValidField(b.field) && ValidField(b'.field) && ValidField(r.field) && k < FieldLength * FieldLength
    requires b' == NotesStep(b, PosAt(k))
    requires SameValues(b'.field, r.field)
    requires forall k' :: 0 <= k' < k + 1 ==> At(r.field, PosAt(k')) == At(b'.field, PosAt(k'))
    requires forall k' :: k + 1 <= k' < FieldLength * FieldLength ==> SettledAt(r.field, PosAt(k'))
    requires WellFormedField(b'.field) ==> Narrowed(b'.field, r.field) && WellFormedField(r.field)
    ensures SameValues(b.field, r.field)
    ensures forall k' :: 0 <= k' < k ==> At(r.field, PosAt(k')) == At(b.field, PosAt(k'))
    ensures forall k' :: k <= k' < FieldLength * FieldLength ==> SettledAt(r.field, PosAt(k'))
    ensures WellFormedField(b.field) ==> Narrowed(b.field, r.field) && WellFormedField(r.field)
  {
    var q := PosAt(k);
    forall k' | 0 <= k' < k ensures At(r.field, PosAt(k')) == At(b.field, PosAt(k')) {
      PosAtInjective(k, k');
    }
    assert SettledAt(r.field, q) by {
      assert At(r.field, q) == At(b'.field, q);
      OccupiedSameValues(b'.field, r.field, q);
    }
    if WellFormedField(b.field) {
      NarrowedTransitive(b.field, b'.field, r.field);
    }
  }

  /** `checkAllCellsSurroundings()`: no value changes, and afterwards every cell without a value is
      settled. */
  function CheckAllCellsSurroundings(b: Board): (r: Board)
    requires ValidField(b.field)
    ensures ValidField(r.field) && b.log <= r.log
    ensures SameValues(b.field, r.field)
    ensures forall q :: InGrid(q) ==> SettledAt(r.field, q)
    ensures WellFormedField(b.field) ==> Narrowed(b.field, r.field) && WellFormedField(r.field)
  {
    var r := NotesFrom(b, 0);
    SweptAll(r.field);
    r
  }

  /** The row-major sweep visits every cell of the grid. */
  lemma SweptAll(f: Field)
    requires ValidField(f)
    requires forall k :: 0 <= k < FieldLength * FieldLength ==> SettledAt(f, PosAt(k))
    ensures forall q :: InGrid(q) ==> SettledAt(f, q)
  {
    forall q | InGrid(q) ensures SettledAt(f, q) {
      PosAtIndex(q);
    }
  }

  /** On a field whose cells are all settled the sweep from any step on changes nothing and logs
      nothing. */
  lemma {:induction false} NotesFromSettled(b: Board, k: nat)
    requires ValidField(b.field) && k <= FieldLength * FieldLength
    requires forall k' :: 0 <= k' < FieldLength * FieldLength ==> SettledAt(b.field, PosAt(k'))
    ensures NotesFrom(b, k) == b
    decreases FieldLength * FieldLength - k
  {
    if k < FieldLength * FieldLength {
      var q := PosAt(k);
      assert SettledAt(b.field, q);
      var b' := NotesStep(b, q);
      assert b' == b;
      NotesFromSettled(b', k + 1);
    }
  }

  /** On a field whose every cell is settled, Update-Notes changes nothing and logs nothing. */
  lemma SettledUnchanged(b: Board)
    requires ValidField(b.field)
    requires forall q :: InGrid(q) ==> SettledAt(b.field, q)
    ensures CheckAllCellsSurroundings(b) == b
  {
    assert forall k' :: 0 <= k' < FieldLength * FieldLength ==> SettledAt(b.field, PosAt(k'));
    NotesFromSettled(b, 0);
  }

  /** Update-Notes commits no value, so running it a second time changes nothing and logs nothing. */
  lemma UpdateNotesIdempotent(b: Board)
    requires ValidField(b.field)
    ensures CheckAllCellsSurroundings(CheckAllCellsSurroundings(b)) == CheckAllCellsSurroundings(b)
  {
    SettledUnchanged(CheckAllCellsSurroundings(b));
  }
}
