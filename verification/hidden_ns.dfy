/**
 * The pattern detectors of src/models/HiddenNs.ts. They only read cells: each
 * returns the numbers it found and the cells they belong to, or nothing.
 */
module HiddenNs {
  import opened Wrappers
  import opened Arrays
  import opened Cells

  /** The detectors' `Result`: the numbers found and the cells they were found in. */
  datatype Found = Found(numbers: seq<int>, cells: seq<Cell>)

  /** Cell objects are compared by identity in the source; cells are identified by position here. */
  predicate SameCell(a: Cell, b: Cell) {
    a.row == b.row && a.col == b.col
  }

  /** The cells of `cells` other than `x` and `y`, in order: the filters `el => el !== x` (with
      `y == x`) and `el => el !== x && el !== y`. */
  function Except(cells: seq<Cell>, x: Cell, y: Cell): (r: seq<Cell>)
    ensures |r| <= |cells|
    ensures forall c :: c in r <==> c in cells && !SameCell(c, x) && !SameCell(c, y)
  {
    if cells == [] then []
    else (if !SameCell(cells[0], x) && !SameCell(cells[0], y) then [cells[0]] else []) + Except(cells[1..], x, y)
  }

  /** Some cell of `cells` has `v` among its candidates. */
  predicate HeldBy(cells: seq<Cell>, v: int) {
    exists k :: 0 <= k < |cells| && v in cells[k].candidates
  }

  // ---------------------------------------------------------------------------
  // Unions, pairs and triples of candidates

  /** All candidates of `cells`, concatenated in order (the `push(...possibleNumbers)` loop). */
  function AllCandidates(cells: seq<Cell>): (r: seq<int>)
    ensures forall x :: x in r <==> HeldBy(cells, x)
  {
    if cells == [] then []
    else
      var r := cells[0].candidates + AllCandidates(cells[1..]);
      assert forall x :: HeldBy(cells, x) <==> x in cells[0].candidates || HeldBy(cells[1..], x) by {
        forall x ensures HeldBy(cells, x) ==> x in cells[0].candidates || HeldBy(cells[1..], x) {
          if HeldBy(cells, x) {
            var k :| 0 <= k < |cells| && x in cells[k].candidates;
            if k > 0 {
              assert cells[1..][k - 1] == cells[k];
            }
          }
        }
        forall x ensures HeldBy(cells[1..], x) ==> HeldBy(cells, x) {
          if HeldBy(cells[1..], x) {
            var k :| 0 <= k < |cells[1..]| && x in cells[1..][k].candidates;
            assert cells[k + 1] == cells[1..][k];
          }
        }
      }
      r
  }

  /** `getAllUniqueNumbers`: every candidate of the given cells, each once. */
  function GetAllUniqueNumbers(cells: seq<Cell>): (r: seq<int>)
    ensures NoDups(r)
    ensures forall x :: x in r <==> HeldBy(cells, x)
  {
    Unique(AllCandidates(cells))
  }

  /** The binomial coefficients C(n, 2) and C(n, 3) by Pascal's rule. */
  function Choose2(n: nat): nat {
    if n == 0 then 0 else (n - 1) + Choose2(n - 1)
  }

  function Choose3(n: nat): nat {
    if n == 0 then 0 else Choose2(n - 1) + Choose3(n - 1)
  }

  /** The closed forms n(n-1)/2 and n(n-1)(n-2)/6. */
  lemma {:induction false} Choose2Closed(n: nat)
    ensures 2 * Choose2(n) == n * (n - 1)
  {
    if n > 0 {
      Choose2Closed(n - 1);
      assert 2 * (n - 1) + (n - 1) * (n - 2) == n * (n - 1);
    }
  }

  lemma {:induction false} Choose3Closed(n: nat)
    ensures 6 * Choose3(n) == n * (n - 1) * (n - 2)
  {
    if n > 0 {
      Choose2Closed(n - 1);
      Choose3Closed(n - 1);
      PascalCubic(n - 1);
    }
  }

  /** 3·m(m-1) + m(m-1)(m-2) = (m+1)m(m-1). */
  lemma PascalCubic(m: int)
    ensures 3 * (m * (m - 1)) + m * (m - 1) * (m - 2) == (m + 1) * m * (m - 1)
  {
    var k := m * (m - 1);
    assert 3 * k + k * (m - 2) == k * (m + 1);
  }

  /** `p` is `[s[i], s[j]]` for some indices `i < j`. */
  predicate IsPairOf(s: seq<int>, p: seq<int>) {
    exists i, j :: 0 <= i < j < |s| && p == [s[i], s[j]]
  }

  /** `t` is `[s[i], s[j], s[k]]` for some indices `i < j < k`. */
  predicate IsTripleOf(s: seq<int>, t: seq<int>) {
    exists i, j, k :: 0 <= i < j < k < |s| && t == [s[i], s[j], s[k]]
  }

  /** The pairs of the first element with each later one, in order. */
  function PairsWithHead(s: seq<int>): (r: seq<seq<int>>)
    requires |s| > 0
    ensures |r| == |s| - 1
    ensures forall k :: 0 <= k < |r| ==> r[k] == [s[0], s[k + 1]]
  {
    seq(|s| - 1, k requires 0 <= k < |s| - 1 => [s[0], s[k + 1]])
  }

  /** The candidate-list part of `getAllPairs`: the nested `i < j` loops. */
  function PairsOf(s: seq<int>): seq<seq<int>> {
    if s == [] then [] else PairsWithHead(s) + PairsOf(s[1..])
  }

  /** `getAllPairs(cell)`: every index-increasing pair of candidates. */
  function GetAllPairs(c: Cell): seq<seq<int>> {
    PairsOf(c.candidates)
  }

  /** n candidates give C(n, 2) pairs. */
  lemma {:induction false} PairsOfCount(s: seq<int>)
    ensures |PairsOf(s)| == Choose2(|s|)
  {
    if s != [] {
      PairsOfCount(s[1..]);
    }
  }

  /** The pairs listed by `PairsOf` are exactly the index-increasing pairs. */
  lemma {:induction false} PairsOfMembers(s: seq<int>)
    ensures forall p :: p in PairsOf(s) <==> IsPairOf(s, p)
  {
    if s != [] {
      var head := PairsWithHead(s);
      var tail := s[1..];
      PairsOfMembers(tail);
      assert PairsOf(s) == head + PairsOf(tail);
      forall p ensures p in PairsOf(s) ==> IsPairOf(s, p) {
        if p in head {
          var k :| 0 <= k < |head| && head[k] == p;
          assert p == [s[0], s[k + 1]];
        } else if p in PairsOf(tail) {
          var i, j :| 0 <= i < j < |tail| && p == [tail[i], tail[j]];
          assert p == [s[i + 1], s[j + 1]];
        }
      }
      forall p ensures IsPairOf(s, p) ==> p in PairsOf(s) {
        if IsPairOf(s, p) {
          var i, j :| 0 <= i < j < |s| && p == [s[i], s[j]];
          if i == 0 {
            assert head[j - 1] == p;
          } else {
            assert p == [tail[i - 1], tail[j - 1]];
            assert IsPairOf(tail, p);
          }
        }
      }
    }
  }

  /** `h` put in front of every list of `ps`, in order. */
  function PrependAll(h: int, ps: seq<seq<int>>): (r: seq<seq<int>>)
    ensures |r| == |ps|
  {
    if ps == [] then [] else [[h] + ps[0]] + PrependAll(h, ps[1..])
  }

  lemma {:induction false} PrependAllIndex(h: int, ps: seq<seq<int>>, k: nat)
    requires k < |ps|
    ensures PrependAll(h, ps)[k] == [h] + ps[k]
  {
    if k > 0 {
      PrependAllIndex(h, ps[1..], k - 1);
    }
  }

  /** The candidate-list part of `getAllTriples`: the nested `i < j < k` loops. */
  function TriplesOf(s: seq<int>): seq<seq<int>> {
    if s == [] then [] else PrependAll(s[0], PairsOf(s[1..])) + TriplesOf(s[1..])
  }

  /** `getAllTriples(cell)`: every index-increasing triple of candidates. */
  function GetAllTriples(c: Cell): seq<seq<int>> {
    TriplesOf(c.candidates)
  }

  /** n candidates give C(n, 3) triples. */
  lemma {:induction false} TriplesOfCount(s: seq<int>)
    ensures |TriplesOf(s)| == Choose3(|s|)
  {
    if s != [] {
      PairsOfCount(s[1..]);
      TriplesOfCount(s[1..]);
    }
  }

  /** The triples listed by `TriplesOf` are exactly the index-increasing triples. */
  lemma TriplesOfMembers(s: seq<int>)
    ensures forall t :: t in TriplesOf(s) <==> IsTripleOf(s, t)
  {
    forall t ensures t in TriplesOf(s) ==> IsTripleOf(s, t) {
      if t in TriplesOf(s) {
        TriplesOfSound(s, t);
      }
    }
    forall t ensures IsTripleOf(s, t) ==> t in TriplesOf(s) {
      if IsTripleOf(s, t) {
        TriplesOfComplete(s, t);
      }
    }
  }

  lemma {:induction false} TriplesOfSound(s: seq<int>, t: seq<int>)
    requires t in TriplesOf(s)
    ensures IsTripleOf(s, t)
  {
    var tail := s[1..];
    var ps := PairsOf(tail);
    var head := PrependAll(s[0], ps);
    assert TriplesOf(s) == head + TriplesOf(tail);
    if t in head {
      var m :| 0 <= m < |head| && head[m] == t;
      PrependAllIndex(s[0], ps, m);
      PairsOfMembers(tail);
      assert ps[m] in ps;
      var j, k :| 0 <= j < k < |tail| && ps[m] == [tail[j], tail[k]];
      assert t == [s[0], s[j + 1], s[k + 1]];
    } else {
      TriplesOfSound(tail, t);
      var i, j, k :| 0 <= i < j < k < |tail| && t == [tail[i], tail[j], tail[k]];
      assert t == [s[i + 1], s[j + 1], s[k + 1]];
    }
  }

  lemma {:induction false} TriplesOfComplete(s: seq<int>, t: seq<int>)
    requires IsTripleOf(s, t)
    ensures t in TriplesOf(s)
  {
    var tail := s[1..];
    var ps := PairsOf(tail);
    var head := PrependAll(s[0], ps);
    assert TriplesOf(s) == head + TriplesOf(tail);
    var i, j, k :| 0 <= i < j < k < |s| && t == [s[i], s[j], s[k]];
    if i == 0 {
      assert [s[j], s[k]] == [tail[j - 1], tail[k - 1]];
      assert IsPairOf(tail, [s[j], s[k]]);
      PairsOfMembers(tail);
      var m :| 0 <= m < |ps| && ps[m] == [s[j], s[k]];
      PrependAllIndex(s[0], ps, m);
      assert head[m] == t;
    } else {
      assert t == [tail[i - 1], tail[j - 1], tail[k - 1]];
      TriplesOfComplete(tail, t);
    }
  }

  /** `isArrayExistsInSet`: the JSON comparison of number arrays is sequence equality. */
  function IsArrayExistsInSet(pair: seq<int>, group: seq<seq<int>>): (r: bool)
    ensures r <==> pair in group
  {
    ExistsFrom(pair, group, 0)
  }

  /** The loop of `isArrayExistsInSet`, from index `i` on. */
  function ExistsFrom(pair: seq<int>, group: seq<seq<int>>, i: nat): (r: bool)
    requires i <= |group|
    ensures r <==> pair in group[i..]
    decreases |group| - i
  {
    if i == |group| then false
    else
      assert group[i..] == [group[i]] + group[i + 1..];
      group[i] == pair || ExistsFrom(pair, group, i + 1)
  }

  /** `getAllCommonPairs(cellX, cellY)`: the pairs of `x` that are also pairs of `y`, in `x`'s order. */
  function GetAllCommonPairs(x: Cell, y: Cell): (r: seq<seq<int>>)
    ensures forall p :: p in r <==> p in GetAllPairs(x) && p in GetAllPairs(y)
  {
    KeepShared(GetAllPairs(x), GetAllPairs(y), GetAllPairs(y))
  }

  /** `getAllCommonTriples(cellX, cellY, cellZ)`: the triples of `x` that are triples of `y` and of `z`. */
  function GetAllCommonTriples(x: Cell, y: Cell, z: Cell): (r: seq<seq<int>>)
    ensures forall t :: t in r <==> t in GetAllTriples(x) && t in GetAllTriples(y) && t in GetAllTriples(z)
  {
    KeepShared(GetAllTriples(x), GetAllTriples(y), GetAllTriples(z))
  }

  /** The filters `pair => isArrayExistsInSet(pair, set)` (with `group2 == group1`) and
      `t => isArrayExistsInSet(t, set1) && isArrayExistsInSet(t, set2)` over `ts`, in order. */
  function KeepShared(ts: seq<seq<int>>, group1: seq<seq<int>>, group2: seq<seq<int>>): (r: seq<seq<int>>)
    ensures |r| <= |ts|
    ensures forall t :: t in r <==> t in ts && t in group1 && t in group2
  {
    if ts == [] then []
    else
      var keep := IsArrayExistsInSet(ts[0], group1) && IsArrayExistsInSet(ts[0], group2);
      (if keep then [ts[0]] else []) + KeepShared(ts[1..], group1, group2)
  }

  /** Every number of a pair or triple is a candidate of the list it was drawn from. */
  lemma PairElements(s: seq<int>, p: seq<int>)
    requires IsPairOf(s, p)
    ensures forall x :: x in p ==> x in s
  {
    var i, j :| 0 <= i < j < |s| && p == [s[i], s[j]];
  }

  lemma TripleElements(s: seq<int>, t: seq<int>)
    requires IsTripleOf(s, t)
    ensures forall x :: x in t ==> x in s
  {
    var i, j, k :| 0 <= i < j < k < |s| && t == [s[i], s[j], s[k]];
  }

  // ---------------------------------------------------------------------------
  // Occurrence tests

  /** `isNumbersInOtherCells(array, cells)`: the outer loop runs over the cells, the inner one over
      the numbers; the answer is whether some cell holds some of the numbers. */
  function IsNumbersInOtherCells(nums: seq<int>, cells: seq<Cell>): bool {
    if cells == [] then false else AnyHeld(nums, cells[0]) || IsNumbersInOtherCells(nums, cells[1..])
  }

  /** The inner loop of `isNumbersInOtherCells` for one cell. */
  function AnyHeld(nums: seq<int>, c: Cell): bool {
    if nums == [] then false else nums[0] in c.candidates || AnyHeld(nums[1..], c)
  }

  lemma {:induction false} AnyHeldMeaning(nums: seq<int>, c: Cell)
    ensures AnyHeld(nums, c) <==> exists j :: 0 <= j < |nums| && nums[j] in c.candidates
  {
    if nums != [] {
      AnyHeldMeaning(nums[1..], c);
      if AnyHeld(nums[1..], c) {
        var j :| 0 <= j < |nums[1..]| && nums[1..][j] in c.candidates;
        assert nums[j + 1] in c.candidates;
      }
      if exists j :: 0 <= j < |nums| && nums[j] in c.candidates {
        var j :| 0 <= j < |nums| && nums[j] in c.candidates;
        if j > 0 {
          assert nums[1..][j - 1] in c.candidates;
        }
      }
    }
  }

  /** `isNumbersInOtherCells` answers whether some cell holds some of the numbers. */
  lemma {:induction false} IsNumbersInOtherCellsMeaning(nums: seq<int>, cells: seq<Cell>)
    ensures IsNumbersInOtherCells(nums, cells) <==> exists j :: 0 <= j < |nums| && HeldBy(cells, nums[j])
  {
    if cells != [] {
      var tail := cells[1..];
      IsNumbersInOtherCellsMeaning(nums, tail);
      AnyHeldMeaning(nums, cells[0]);
      if IsNumbersInOtherCells(nums, cells) {
        if AnyHeld(nums, cells[0]) {
          var j :| 0 <= j < |nums| && nums[j] in cells[0].candidates;
          assert HeldBy(cells, nums[j]);
        } else {
          var j :| 0 <= j < |nums| && HeldBy(tail, nums[j]);
          var k :| 0 <= k < |tail| && nums[j] in tail[k].candidates;
          assert cells[k + 1] == tail[k];
          assert HeldBy(cells, nums[j]);
        }
      }
      if exists j :: 0 <= j < |nums| && HeldBy(cells, nums[j]) {
        var j :| 0 <= j < |nums| && HeldBy(cells, nums[j]);
        var k :| 0 <= k < |cells| && nums[j] in cells[k].candidates;
        if k > 0 {
          assert tail[k - 1] == cells[k];
          assert HeldBy(tail, nums[j]);
        }
      }
    }
  }

  /** `HiddenNs.isNumberInOtherCells(number, cells)`: some cell holds the number. */
  function IsNumberInOtherCells(v: int, cells: seq<Cell>): (r: bool)
    ensures r <==> HeldBy(cells, v)
  {
    NumberInCellsFrom(v, cells, 0)
  }

  function NumberInCellsFrom(v: int, cells: seq<Cell>, i: nat): (r: bool)
    requires i <= |cells|
    ensures r <==> exists k :: i <= k < |cells| && v in cells[k].candidates
    decreases |cells| - i
  {
    if i == |cells| then false else v in cells[i].candidates || NumberInCellsFrom(v, cells, i + 1)
  }

  /** The single-number test is the one-element case of the many-number test. */
  lemma NumberInOtherCellsIsSingleton(v: int, cells: seq<Cell>)
    ensures IsNumberInOtherCells(v, cells) == IsNumbersInOtherCells([v], cells)
  {
    IsNumbersInOtherCellsMeaning([v], cells);
    assert [v][0] == v;
  }

  /** `isNumbersInCellsEqual`: the JSON comparison of two candidate arrays, i.e. equal sequences. */
  predicate IsNumbersInCellsEqual(x: Cell, y: Cell) {
    x.candidates == y.candidates
  }

  // ---------------------------------------------------------------------------
  // Hidden singles, pairs and triples

  /** What every hidden-N result promises: `cell` comes first, the other cells are checked cells,
      there are `n` cells and every reported number is a candidate of every reported cell. */
  predicate HiddenResult(cell: Cell, cellsToCheck: seq<Cell>, n: int, f: Found) {
    && 0 < |f.cells| == n && f.cells[0] == cell
    && (forall k :: 1 <= k < |f.cells| ==> f.cells[k] in cellsToCheck)
    && (forall k, x :: 0 <= k < |f.cells| && x in f.numbers ==> x in f.cells[k].candidates)
  }

  /** `getCellHiddenSingle`: the first candidate of `cell` that no checked cell holds. */
  function GetCellHiddenSingle(cell: Cell, cellsToCheck: seq<Cell>): (r: Option<Found>)
    ensures r.Some? ==>
      exists k :: 0 <= k < |cell.candidates|
          && r.value == Found([cell.candidates[k]], [cell])
          && !HeldBy(cellsToCheck, cell.candidates[k])
          && (forall k' :: 0 <= k' < k ==> HeldBy(cellsToCheck, cell.candidates[k']))
    ensures r.None? <==> forall k :: 0 <= k < |cell.candidates| ==> HeldBy(cellsToCheck, cell.candidates[k])
    ensures r.Some? ==> HiddenResult(cell, cellsToCheck, 1, r.value)
  {
    HiddenSingleFrom(cell, cellsToCheck, 0)
  }

  function HiddenSingleFrom(cell: Cell, cellsToCheck: seq<Cell>, i: nat): (r: Option<Found>)
    requires i <= |cell.candidates|
    ensures r.Some? ==>
      exists k :: i <= k < |cell.candidates|
          && r.value == Found([cell.candidates[k]], [cell])
          && !HeldBy(cellsToCheck, cell.candidates[k])
          && (forall k' :: i <= k' < k ==> HeldBy(cellsToCheck, cell.candidates[k']))
    ensures r.None? <==> forall k :: i <= k < |cell.candidates| ==> HeldBy(cellsToCheck, cell.candidates[k])
    decreases |cell.candidates| - i
  {
    if i == |cell.candidates| then None
    else
      var v := cell.candidates[i];
      NumberInOtherCellsIsSingleton(v, cellsToCheck);
      if !IsNumbersInOtherCells([v], cellsToCheck) then Some(Found([v], [cell]))
      else HiddenSingleFrom(cell, cellsToCheck, i + 1)
  }

  /** The first of `groups` (from index `j` on) none of whose numbers any of `others` holds. */
  function FirstFree(groups: seq<seq<int>>, others: seq<Cell>, j: nat): (r: Option<seq<int>>)
    requires j <= |groups|
    ensures r.Some? ==>
      exists k :: j <= k < |groups| && r.value == groups[k]
          && !IsNumbersInOtherCells(groups[k], others)
          && (forall k' :: j <= k' < k ==> IsNumbersInOtherCells(groups[k'], others))
    ensures r.None? <==> forall k :: j <= k < |groups| ==> IsNumbersInOtherCells(groups[k], others)
    decreases |groups| - j
  {
    if j == |groups| then None
    else if !IsNumbersInOtherCells(groups[j], others) then Some(groups[j])
    else FirstFree(groups, others, j + 1)
  }

  /** The checked cells other than the `i`-th (`el !== cellsToCheck[i]`). */
  function OthersThan(cellsToCheck: seq<Cell>, i: nat): seq<Cell>
    requires i < |cellsToCheck|
  {
    Except(cellsToCheck, cellsToCheck[i], cellsToCheck[i])
  }

  /** The checked cells other than the `i`-th and the `j`-th. */
  function OthersThanBoth(cellsToCheck: seq<Cell>, i: nat, j: nat): seq<Cell>
    requires i < |cellsToCheck| && j < |cellsToCheck|
  {
    Except(cellsToCheck, cellsToCheck[i], cellsToCheck[j])
  }

  /** `p` is a hidden pair of `cell` and the `i`-th checked cell: a pair of candidates of both,
      none of whose values any other checked cell holds. */
  ghost predicate IsHiddenPair(cell: Cell, cellsToCheck: seq<Cell>, i: nat, p: seq<int>)
    requires i < |cellsToCheck|
  {
    && p in GetAllPairs(cell)
    && p in GetAllPairs(cellsToCheck[i])
    && !IsNumbersInOtherCells(p, OthersThan(cellsToCheck, i))
  }

  ghost predicate NoHiddenPairWith(cell: Cell, cellsToCheck: seq<Cell>, i: nat)
    requires i < |cellsToCheck|
  {
    forall p :: !IsHiddenPair(cell, cellsToCheck, i, p)
  }

  /** `getCellHiddenPair`: the loop body (`HiddenPairAt`) run for each checked cell in turn; the
      first success gives the pair and the two cells. */
  function GetCellHiddenPair(cell: Cell, cellsToCheck: seq<Cell>): (r: Option<Found>)
    ensures r.Some? ==>
      exists i :: 0 <= i < |cellsToCheck|
          && r.value.cells == [cell, cellsToCheck[i]]
          && HiddenPairAt(cell, cellsToCheck, i) == Some(r.value.numbers)
          && (forall i' :: 0 <= i' < i ==> HiddenPairAt(cell, cellsToCheck, i').None?)
    ensures r.None? <==> forall i :: 0 <= i < |cellsToCheck| ==> HiddenPairAt(cell, cellsToCheck, i).None?
    ensures r.Some? ==> HiddenResult(cell, cellsToCheck, 2, r.value)
  {
    var r := HiddenPairFrom(cell, cellsToCheck, 0);
    if r.Some? then
      var i :| 0 <= i < |cellsToCheck| && r.value.cells == [cell, cellsToCheck[i]]
        && HiddenPairAt(cell, cellsToCheck, i) == Some(r.value.numbers);
      HiddenPairCandidates(cell, cellsToCheck, i, r.value.numbers);
      r
    else r
  }

  /** The outer loop of `getCellHiddenPair`, from the `i`-th checked cell on. */
  function HiddenPairFrom(cell: Cell, cellsToCheck: seq<Cell>, i: nat): (r: Option<Found>)
    requires i <= |cellsToCheck|
    ensures r.Some? ==>
      exists i' :: i <= i' < |cellsToCheck|
          && r.value.cells == [cell, cellsToCheck[i']]
          && HiddenPairAt(cell, cellsToCheck, i') == Some(r.value.numbers)
          && (forall i'' :: i <= i'' < i' ==> HiddenPairAt(cell, cellsToCheck, i'').None?)
    ensures r.None? <==> forall i' :: i <= i' < |cellsToCheck| ==> HiddenPairAt(cell, cellsToCheck, i').None?
    decreases |cellsToCheck| - i
  {
    if i == |cellsToCheck| then None
    else
      match HiddenPairAt(cell, cellsToCheck, i)
      case Some(p) => Some(Found(p, [cell, cellsToCheck[i]]))
      case None => HiddenPairFrom(cell, cellsToCheck, i + 1)
  }

  /** The loop body for the `i`-th checked cell: the first common pair that no other checked cell
      holds any value of. */
  function HiddenPairAt(cell: Cell, cellsToCheck: seq<Cell>, i: nat): Option<seq<int>>
    requires i < |cellsToCheck|
  {
    FirstFree(GetAllCommonPairs(cell, cellsToCheck[i]), OthersThan(cellsToCheck, i), 0)
  }

  /** What the loop body finds is a hidden pair, and it finds nothing only when there is none. */
  lemma HiddenPairAtMeaning(cell: Cell, cellsToCheck: seq<Cell>, i: nat)
    requires i < |cellsToCheck|
    ensures HiddenPairAt(cell, cellsToCheck, i).Some? ==>
      IsHiddenPair(cell, cellsToCheck, i, HiddenPairAt(cell, cellsToCheck, i).value)
    ensures HiddenPairAt(cell, cellsToCheck, i).None? <==> NoHiddenPairWith(cell, cellsToCheck, i)
  {
    var pairs := GetAllCommonPairs(cell, cellsToCheck[i]);
    var others := OthersThan(cellsToCheck, i);
    var r := FirstFree(pairs, others, 0);
    if r.Some? {
      var k :| 0 <= k < |pairs| && r.value == pairs[k] && !IsNumbersInOtherCells(pairs[k], others);
      assert r.value in pairs;
      assert IsHiddenPair(cell, cellsToCheck, i, r.value);
    } else {
      forall p ensures !IsHiddenPair(cell, cellsToCheck, i, p) {
        if p in pairs {
          var k :| 0 <= k < |pairs| && pairs[k] == p;
        }
      }
    }
  }

  /** `t` is a hidden triple of `cell` and the `i`-th and `j`-th checked cells: a triple of
      candidates of all three, none of whose values any remaining checked cell holds. */
  ghost predicate IsHiddenTriple(cell: Cell, cellsToCheck: seq<Cell>, i: nat, j: nat, t: seq<int>)
    requires i < |cellsToCheck| && j < |cellsToCheck|
  {
    && t in GetAllTriples(cell)
    && t in GetAllTriples(cellsToCheck[i])
    && t in GetAllTriples(cellsToCheck[j])
    && !IsNumbersInOtherCells(t, OthersThanBoth(cellsToCheck, i, j))
  }

  ghost predicate NoHiddenTripleWith(cell: Cell, cellsToCheck: seq<Cell>, i: nat, j: nat)
    requires i < |cellsToCheck| && j < |cellsToCheck|
  {
    forall t :: !IsHiddenTriple(cell, cellsToCheck, i, j, t)
  }

  /** `getCellHiddenTriple`: the loop body (`HiddenTripleAt`) run for each two checked cells
      `i < j` in loop order; the first success gives the triple and the three cells. */
  function GetCellHiddenTriple(cell: Cell, cellsToCheck: seq<Cell>): (r: Option<Found>)
    ensures r.Some? ==>
      exists i, j :: 0 <= i < j < |cellsToCheck|
          && r.value.cells == [cell, cellsToCheck[i], cellsToCheck[j]]
          && HiddenTripleAt(cell, cellsToCheck, i, j) == Some(r.value.numbers)
          && (forall i', j' :: 0 <= i' < j' < |cellsToCheck| && LoopsBefore(i', j', i, j) ==>
                HiddenTripleAt(cell, cellsToCheck, i', j').None?)
    ensures r.None? <==>
      forall i, j :: 0 <= i < j < |cellsToCheck| ==> HiddenTripleAt(cell, cellsToCheck, i, j).None?
    ensures r.Some? ==> HiddenResult(cell, cellsToCheck, 3, r.value)
  {
    match HiddenTripleIndices(cell, cellsToCheck)
    case None => None
    case Some((i, j)) =>
      HiddenTripleCandidates(cell, cellsToCheck, i, j, HiddenTripleAt(cell, cellsToCheck, i, j).value);
      Some(Found(HiddenTripleAt(cell, cellsToCheck, i, j).value, [cell, cellsToCheck[i], cellsToCheck[j]]))
  }

  /** The two nested loops of `getCellHiddenTriple`: the indices `i < j` of the first two checked
      cells the loop body succeeds for. */
  function HiddenTripleIndices(cell: Cell, cellsToCheck: seq<Cell>): (r: Option<(nat, nat)>)
    ensures r.Some? ==>
      r.value.0 < r.value.1 < |cellsToCheck| && HiddenTripleAt(cell, cellsToCheck, r.value.0, r.value.1).Some?
    ensures r.Some? ==>
      forall a, b :: 0 <= a < b < |cellsToCheck| && LoopsBefore(a, b, r.value.0, r.value.1) ==>
        HiddenTripleAt(cell, cellsToCheck, a, b).None?
    ensures r.None? <==>
      forall i, j :: 0 <= i < j < |cellsToCheck| ==> HiddenTripleAt(cell, cellsToCheck, i, j).None?
  {
    var n := |cellsToCheck|;
    var test := (a: nat, b: nat) => a < n && b < n && HiddenTripleAt(cell, cellsToCheck, a, b).Some?;
    var r := FirstPairIndex(test, (a: nat) => a + 1, 0, n, n);
    assert forall a: nat, b: nat :: a < b < n ==> (test(a, b) <==> HiddenTripleAt(cell, cellsToCheck, a, b).Some?);
    r
  }

  /** The loop body for one choice of `i < j`: the first common triple of the three cells that no
      remaining checked cell holds any value of. */
  function HiddenTripleAt(cell: Cell, cellsToCheck: seq<Cell>, i: nat, j: nat): Option<seq<int>>
    requires i < |cellsToCheck| && j < |cellsToCheck|
  {
    FirstFree(GetAllCommonTriples(cell, cellsToCheck[i], cellsToCheck[j]), OthersThanBoth(cellsToCheck, i, j), 0)
  }

  /** What the loop body finds is a hidden triple, and it finds nothing only when there is none. */
  lemma HiddenTripleAtMeaning(cell: Cell, cellsToCheck: seq<Cell>, i: nat, j: nat)
    requires i < |cellsToCheck| && j < |cellsToCheck|
    ensures HiddenTripleAt(cell, cellsToCheck, i, j).Some? ==>
      IsHiddenTriple(cell, cellsToCheck, i, j, HiddenTripleAt(cell, cellsToCheck, i, j).value)
    ensures HiddenTripleAt(cell, cellsToCheck, i, j).None? <==> NoHiddenTripleWith(cell, cellsToCheck, i, j)
  {
    var triples := GetAllCommonTriples(cell, cellsToCheck[i], cellsToCheck[j]);
    var others := OthersThanBoth(cellsToCheck, i, j);
    var r := FirstFree(triples, others, 0);
    if r.Some? {
      var k :| 0 <= k < |triples| && r.value == triples[k] && !IsNumbersInOtherCells(triples[k], others);
      assert r.value in triples;
      assert IsHiddenTriple(cell, cellsToCheck, i, j, r.value);
    } else {
      forall t ensures !IsHiddenTriple(cell, cellsToCheck, i, j, t) {
        if t in triples {
          var k :| 0 <= k < |triples| && triples[k] == t;
        }
      }
    }
  }

  /** The numbers of a hidden pair are candidates of both its cells. */
  lemma HiddenPairCandidates(cell: Cell, cellsToCheck: seq<Cell>, i: nat, p: seq<int>)
    requires i < |cellsToCheck|
    requires HiddenPairAt(cell, cellsToCheck, i) == Some(p)
    ensures forall x :: x in p ==> x in cell.candidates && x in cellsToCheck[i].candidates
    ensures HiddenResult(cell, cellsToCheck, 2, Found(p, [cell, cellsToCheck[i]]))
  {
    HiddenPairAtMeaning(cell, cellsToCheck, i);
    PairsOfMembers(cell.candidates);
    PairsOfMembers(cellsToCheck[i].candidates);
    PairElements(cell.candidates, p);
    PairElements(cellsToCheck[i].candidates, p);
  }

  /** The numbers of a hidden triple are candidates of each of its three cells. */
  lemma HiddenTripleCandidates(cell: Cell, cellsToCheck: seq<Cell>, i: nat, j: nat, t: seq<int>)
    requires i < |cellsToCheck| && j < |cellsToCheck|
    requires HiddenTripleAt(cell, cellsToCheck, i, j) == Some(t)
    ensures forall x :: x in t ==> x in cell.candidates && x in cellsToCheck[i].candidates && x in cellsToCheck[j].candidates
    ensures HiddenResult(cell, cellsToCheck, 3, Found(t, [cell, cellsToCheck[i], cellsToCheck[j]]))
  {
    HiddenTripleAtMeaning(cell, cellsToCheck, i, j);
    assert IsHiddenTriple(cell, cellsToCheck, i, j, t);
    TripleOfThree(cell, cellsToCheck, i, j, t);
  }

  lemma TripleOfThree(cell: Cell, cellsToCheck: seq<Cell>, i: nat, j: nat, t: seq<int>)
    requires i < |cellsToCheck| && j < |cellsToCheck|
    requires t in GetAllTriples(cell) && t in GetAllTriples(cellsToCheck[i]) && t in GetAllTriples(cellsToCheck[j])
    ensures forall x :: x in t ==> x in cell.candidates && x in cellsToCheck[i].candidates && x in cellsToCheck[j].candidates
    ensures HiddenResult(cell, cellsToCheck, 3, Found(t, [cell, cellsToCheck[i], cellsToCheck[j]]))
  {
    TripleMembersOfCell(cell, t);
    TripleMembersOfCell(cellsToCheck[i], t);
    TripleMembersOfCell(cellsToCheck[j], t);
  }

  lemma TripleMembersOfCell(c: Cell, t: seq<int>)
    requires t in GetAllTriples(c)
    ensures forall x :: x in t ==> x in c.candidates
  {
    TriplesOfSound(c.candidates, t);
    TripleElements(c.candidates, t);
  }

  // ---------------------------------------------------------------------------
  // Obvious pairs and triples

  /** `getCellObviousPair`: when `cell` has exactly two candidates, the first checked cell whose
      candidate sequence is identical (order included) to `cell`'s. */
  function GetCellObviousPair(cell: Cell, cellsToCheck: seq<Cell>): (r: Option<Found>)
    ensures r.Some? <==>
      |cell.candidates| == 2 && exists i :: 0 <= i < |cellsToCheck| && cellsToCheck[i].candidates == cell.candidates
    ensures r.Some? ==>
      exists i :: 0 <= i < |cellsToCheck|
          && r.value == Found(cell.candidates, [cell, cellsToCheck[i]])
          && cellsToCheck[i].candidates == cell.candidates
          && (forall i' :: 0 <= i' < i ==> cellsToCheck[i'].candidates != cell.candidates)
  {
    if |cell.candidates| == 2 then ObviousPairFrom(cell, cellsToCheck, 0) else None
  }

  function ObviousPairFrom(cell: Cell, cellsToCheck: seq<Cell>, i: nat): (r: Option<Found>)
    requires i <= |cellsToCheck|
    ensures r.Some? <==> exists i' :: i <= i' < |cellsToCheck| && cellsToCheck[i'].candidates == cell.candidates
    ensures r.Some? ==>
      exists i' :: i <= i' < |cellsToCheck|
          && r.value == Found(cell.candidates, [cell, cellsToCheck[i']])
          && cellsToCheck[i'].candidates == cell.candidates
          && (forall i'' :: i <= i'' < i' ==> cellsToCheck[i''].candidates != cell.candidates)
    decreases |cellsToCheck| - i
  {
    if i == |cellsToCheck| then None
    else if IsNumbersInCellsEqual(cell, cellsToCheck[i]) then Some(Found(cell.candidates, [cell, cellsToCheck[i]]))
    else ObviousPairFrom(cell, cellsToCheck, i + 1)
  }

  /** `getCellObviousTriple`: the first two checked cells `i < j` such that the three cells together
      hold exactly three distinct candidates; the numbers are that union. */
  function GetCellObviousTriple(cell: Cell, cellsToCheck: seq<Cell>): (r: Option<Found>)
    ensures r.Some? ==>
      exists i, j :: 0 <= i < j < |cellsToCheck|
          && r.value.cells == [cell, cellsToCheck[i], cellsToCheck[j]]
          && |r.value.numbers| == 3 && NoDups(r.value.numbers)
          && (forall x :: x in r.value.numbers <==>
                x in cell.candidates || x in cellsToCheck[i].candidates || x in cellsToCheck[j].candidates)
          && NoObviousTripleBefore(cell, cellsToCheck, i, j)
    ensures r.None? <==>
      forall i, j :: 0 <= i < j < |cellsToCheck| ==> !IsObviousTriple(cell, cellsToCheck[i], cellsToCheck[j])
  {
    match ObviousTripleIndices(cell, cellsToCheck)
    case None => None
    case Some((i, j)) =>
      ObviousTripleNumbers(cell, cellsToCheck[i], cellsToCheck[j]);
      Some(Found(GetAllUniqueNumbers([cell, cellsToCheck[i], cellsToCheck[j]]), [cell, cellsToCheck[i], cellsToCheck[j]]))
  }

  /** No pair of checked cells the loops visit before `(i, j)` makes an obvious triple with `cell`. */
  predicate NoObviousTripleBefore(cell: Cell, cellsToCheck: seq<Cell>, i: nat, j: nat) {
    forall a, b :: 0 <= a < b < |cellsToCheck| && LoopsBefore(a, b, i, j) ==>
      !IsObviousTriple(cell, cellsToCheck[a], cellsToCheck[b])
  }

  /** The test of the inner loop of `getCellObviousTriple`: three cells with exactly three distinct
      candidates between them. */
  predicate IsObviousTriple(x: Cell, y: Cell, z: Cell) {
    |GetAllUniqueNumbers([x, y, z])| == 3
  }

  /** The union of an obvious triple's candidates has three distinct numbers, each held by one of the cells. */
  lemma ObviousTripleNumbers(x: Cell, y: Cell, z: Cell)
    requires IsObviousTriple(x, y, z)
    ensures |GetAllUniqueNumbers([x, y, z])| == 3 && NoDups(GetAllUniqueNumbers([x, y, z]))
    ensures forall v :: v in GetAllUniqueNumbers([x, y, z]) <==> v in x.candidates || v in y.candidates || v in z.candidates
  {
    forall v ensures HeldBy([x, y, z], v) <==> v in x.candidates || v in y.candidates || v in z.candidates {
      HeldByThree(x, y, z, v);
    }
  }

  /** Who holds a value among the three cells `[x, y, z]`. */
  lemma HeldByThree(x: Cell, y: Cell, z: Cell, v: int)
    ensures HeldBy([x, y, z], v) <==> v in x.candidates || v in y.candidates || v in z.candidates
  {
    var cs := [x, y, z];
    if v in x.candidates { assert cs[0] == x; }
    if v in y.candidates { assert cs[1] == y; }
    if v in z.candidates { assert cs[2] == z; }
  }

  /** The two nested loops of `getCellObviousTriple`: the indices `i < j` of the first obvious triple. */
  function ObviousTripleIndices(cell: Cell, cellsToCheck: seq<Cell>): (r: Option<(nat, nat)>)
    ensures r.Some? ==>
      && r.value.0 < r.value.1 < |cellsToCheck|
      && IsObviousTriple(cell, cellsToCheck[r.value.0], cellsToCheck[r.value.1])
    ensures r.Some? ==> NoObviousTripleBefore(cell, cellsToCheck, r.value.0, r.value.1)
    ensures r.None? <==>
      forall i, j :: 0 <= i < j < |cellsToCheck| ==> !IsObviousTriple(cell, cellsToCheck[i], cellsToCheck[j])
  {
    var n := |cellsToCheck|;
    var test := (a: nat, b: nat) => a < n && b < n && IsObviousTriple(cell, cellsToCheck[a], cellsToCheck[b]);
    var r := FirstPairIndex(test, (a: nat) => a + 1, 0, n, n);
    assert forall a: nat, b: nat :: a < b < n ==> (test(a, b) <==> IsObviousTriple(cell, cellsToCheck[a], cellsToCheck[b]));
    if r.Some? then
      forall a, b | 0 <= a < b < n && LoopsBefore(a, b, r.value.0, r.value.1)
        ensures !IsObviousTriple(cell, cellsToCheck[a], cellsToCheck[b])
      {
        assert !test(a, b);
      }
      r
    else r
  }

  // ---------------------------------------------------------------------------
  // The static `HiddenNs` methods

  /** `HiddenNs.getCellHiddenNs(cell, cellsToCheck, n)`: dispatch on `n`; nothing for other `n`. */
  function GetCellHiddenNs(cell: Cell, cellsToCheck: seq<Cell>, n: int): (r: Option<Found>)
    ensures n != 1 && n != 2 && n != 3 ==> r.None?
    ensures r.Some? ==> HiddenResult(cell, cellsToCheck, n, r.value)
  {
    if n == 1 then GetCellHiddenSingle(cell, cellsToCheck)
    else if n == 2 then GetCellHiddenPair(cell, cellsToCheck)
    else if n == 3 then GetCellHiddenTriple(cell, cellsToCheck)
    else None
  }

  /** What every obvious-N result promises: `cell` comes first and the other cells are checked cells. */
  predicate ObviousResult(cell: Cell, cellsToCheck: seq<Cell>, f: Found) {
    && |f.cells| > 0 && f.cells[0] == cell
    && (forall k :: 1 <= k < |f.cells| ==> f.cells[k] in cellsToCheck)
  }

  /** `HiddenNs.getCellObviousNs(cell, cellsToCheck, n)`: dispatch on `n`; nothing for other `n`. */
  function GetCellObviousNs(cell: Cell, cellsToCheck: seq<Cell>, n: int): (r: Option<Found>)
    ensures n != 2 && n != 3 ==> r.None?
    ensures r.Some? ==> ObviousResult(cell, cellsToCheck, r.value)
  {
    if n == 2 then GetCellObviousPair(cell, cellsToCheck)
    else if n == 3 then GetCellObviousTriple(cell, cellsToCheck)
    else None
  }

  /** `isNumberInSquareJustAtTheSameRow`: no checked cell outside `cell`'s row holds `v`. */
  function IsNumberInSquareJustAtTheSameRow(v: int, cell: Cell, cellsToCheck: seq<Cell>): (r: bool)
    ensures r <==>
      forall k :: 0 <= k < |cellsToCheck| && cellsToCheck[k].row != cell.row
          ==> v !in cellsToCheck[k].candidates
  {
    OnlyInRowFrom(v, cell, cellsToCheck, 0)
  }

  function OnlyInRowFrom(v: int, cell: Cell, cellsToCheck: seq<Cell>, i: nat): (r: bool)
    requires i <= |cellsToCheck|
    ensures r <==>
      forall k :: i <= k < |cellsToCheck| && cellsToCheck[k].row != cell.row
          ==> v !in cellsToCheck[k].candidates
    decreases |cellsToCheck| - i
  {
    if i == |cellsToCheck| then true
    else if cellsToCheck[i].row != cell.row && v in cellsToCheck[i].candidates then false
    else OnlyInRowFrom(v, cell, cellsToCheck, i + 1)
  }

  /** `isNumberInSquareJustAtTheSameColumn`: no checked cell outside `cell`'s column holds `v`. */
  function IsNumberInSquareJustAtTheSameColumn(v: int, cell: Cell, cellsToCheck: seq<Cell>): (r: bool)
    ensures r <==>
      forall k :: 0 <= k < |cellsToCheck| && cellsToCheck[k].col != cell.col
          ==> v !in cellsToCheck[k].candidates
  {
    OnlyInColumnFrom(v, cell, cellsToCheck, 0)
  }

  function OnlyInColumnFrom(v: int, cell: Cell, cellsToCheck: seq<Cell>, i: nat): (r: bool)
    requires i <= |cellsToCheck|
    ensures r <==>
      forall k :: i <= k < |cellsToCheck| && cellsToCheck[k].col != cell.col
          ==> v !in cellsToCheck[k].candidates
    decreases |cellsToCheck| - i
  {
    if i == |cellsToCheck| then true
    else if cellsToCheck[i].col != cell.col && v in cellsToCheck[i].candidates then false
    else OnlyInColumnFrom(v, cell, cellsToCheck, i + 1)
  }
}
