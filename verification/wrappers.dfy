/** The optional value used wherever the source returns `T | undefined`. */
module Wrappers {

  datatype Option<+T> = None | Some(value: T)

  /** The early-exit index loop `for (k = j; k < n; k += 1) if (test(k)) return k`: the first index
      from `j` below `n` that passes `test`, or nothing when none does. */
  function FirstIndex(test: nat -> bool, j: nat, n: nat): (r: Option<nat>)
    ensures r.Some? ==> j <= r.value < n && test(r.value) && forall k :: j <= k < r.value ==> !test(k)
    ensures r.None? <==> forall k :: j <= k < n ==> !test(k)
    decreases n - j
  {
    if j >= n then None
    else if test(j) then Some(j)
    else FirstIndex(test, j + 1, n)
  }

  /** The pair `(a, b)` comes before `(i, j)` in the order two nested loops visit pairs. */
  predicate LoopsBefore(a: nat, b: nat, i: nat, j: nat) {
    a < i || (a == i && b < j)
  }

  /** Two such loops nested, the inner one running from `lo(i)` below `m` for each `i` of the outer
      one: the first pair that passes `test`, in loop order, or nothing when none does. */
  function FirstPairIndex(test: (nat, nat) -> bool, lo: nat -> nat, i: nat, n: nat, m: nat): (r: Option<(nat, nat)>)
    ensures r.Some? ==>
      && i <= r.value.0 < n && lo(r.value.0) <= r.value.1 < m && test(r.value.0, r.value.1)
      && (forall a, b :: i <= a < r.value.0 && lo(a) <= b < m ==> !test(a, b))
      && (forall b :: lo(r.value.0) <= b < r.value.1 ==> !test(r.value.0, b))
    ensures r.None? <==> forall a, b :: i <= a < n && lo(a) <= b < m ==> !test(a, b)
    decreases n - i
  {
    if i >= n then None
    else
      var inner := (b: nat) => test(i, b);
      match FirstIndex(inner, lo(i), m)
      case Some(b) =>
        assert test(i, b) && forall b' :: lo(i) <= b' < b ==> !test(i, b') by {
          assert inner(b);
          forall b' | lo(i) <= b' < b ensures !test(i, b') {
            assert !inner(b');
          }
        }
        Some((i, b))
      case None =>
        assert forall b :: lo(i) <= b < m ==> !test(i, b) by {
          forall b | lo(i) <= b < m ensures !test(i, b) {
            assert !inner(b);
          }
        }
        FirstPairIndex(test, lo, i + 1, n, m)
  }
}
