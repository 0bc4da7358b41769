/**
 * Wrap-around stepping shared by the turn hand-off of the board and the
 * per-category question cursor: both move an index in [0, n) one place on,
 * going back to 0 after the last place.
 */
module RoundRobin {

  /** One step of the question cursor: add one, and go back to 0 on reaching `n`.
      It agrees with the board's `(p + 1) % n`. */
  function Next(i: int, n: int): (j: int)
    requires 0 <= i < n
    ensures 0 <= j < n
    ensures j == (i + 1) % n
  {
    if i + 1 >= n then 0 else i + 1
  }

  /** The index after `k` steps from `i`. */
  function Iterate(i: int, n: int, k: nat): (j: int)
    requires 0 <= i < n
    ensures 0 <= j < n
  {
    if k == 0 then i else Next(Iterate(i, n, k - 1), n)
  }

  /** Within one cycle, `k` steps move the index `k` places on, wrapping once past the end. */
  lemma {:induction false} IterateWithinCycle(i: int, n: int, k: nat)
    requires 0 <= i < n
    requires k <= n
    ensures Iterate(i, n, k) == if i + k < n then i + k else i + k - n
  {
    if k > 0 {
      IterateWithinCycle(i, n, k - 1);
    }
  }

  /** `n` steps return to the start. */
  lemma FullCycleReturns(i: int, n: int)
    requires 0 <= i < n
    ensures Iterate(i, n, n) == i
  {
    IterateWithinCycle(i, n, n);
  }

  /** The first `n` steps (0 through n - 1) land on pairwise different places. */
  lemma FirstCycleDistinct(i: int, n: int, a: nat, b: nat)
    requires 0 <= i < n
    requires a < b < n
    ensures Iterate(i, n, a) != Iterate(i, n, b)
  {
    IterateWithinCycle(i, n, a);
    IterateWithinCycle(i, n, b);
  }

  /** The first `n` steps reach every place in [0, n). */
  lemma FirstCycleCovers(i: int, n: int, j: int)
    requires 0 <= i < n
    requires 0 <= j < n
    ensures exists k: nat :: k < n && Iterate(i, n, k) == j
  {
    var k: nat := if j >= i then j - i else j - i + n;
    IterateWithinCycle(i, n, k);
  }
}
