/**
 * The index arithmetic of the lightbox's next/previous navigation. JavaScript's
 * `%` truncates toward zero (the sign follows the dividend), unlike Dafny's, so
 * it is written out; the index may be -1 when the clicked card was not in the
 * snapshot of visible cards.
 */
module Navigation {

  /**
   * JavaScript's `a % n` for a positive `n`: `a` minus `n` times the quotient
   * truncated toward zero (a result of -0 is read as 0).
   */
  function JsRem(a: int, n: int): (r: int)
    requires n > 0
    ensures a >= 0 ==> r == a % n
    ensures -n < r < n
    ensures a < 0 ==> r <= 0
    ensures a < 0 ==> r == a + n * ((-a) / n)
  {
    if a >= 0 then a % n else -((-a) % n)
  }

  /** Euclidean remainder of a value below twice the divisor. */
  lemma ModBelowTwice(a: int, n: int)
    requires n > 0 && 0 <= a < 2 * n
    ensures a % n == if a < n then a else a - n
  {
    if a >= n {
      assert a == 1 * n + (a - n);
    }
  }

  /** `(currentModalIndex + 1) % visibleCards.length`. */
  function Next(i: int, n: nat): (r: int)
    requires n > 0
    requires -1 <= i < n
    ensures 0 <= r < n
    ensures r == if i == n - 1 then 0 else i + 1
  {
    ModBelowTwice(i + 1, n);
    JsRem(i + 1, n)
  }

  /** `(currentModalIndex - 1 + visibleCards.length) % visibleCards.length`. */
  function Prev(i: int, n: nat): (r: int)
    requires n > 0
    requires -1 <= i < n
    ensures 0 <= r < n
    ensures 0 <= i ==> r == if i == 0 then n - 1 else i - 1
  {
    // the dividend is -1 only for i == -1 and n == 1
    if i - 1 + n < 0 then JsRem(i - 1 + n, n)
    else
      ModBelowTwice(i - 1 + n, n);
      JsRem(i - 1 + n, n)
  }

  /** Stepping back from the first picture lands on the last. */
  lemma PrevFromFirst(n: nat)
    requires n > 0
    ensures Prev(0, n) == n - 1
  {
  }

  /** From a card missing from the snapshot (-1), next goes to the first, previous to the next-to-last. */
  lemma FromMissing(n: nat)
    requires n > 0
    ensures Next(-1, n) == 0
    ensures Prev(-1, n) == if n >= 2 then n - 2 else 0
  {
  }

  lemma PrevUndoesNext(i: int, n: nat)
    requires n > 0 && 0 <= i < n
    ensures Prev(Next(i, n), n) == i
    ensures Next(Prev(i, n), n) == i
  {
  }

  /** `k` presses of "next" from `i`. */
  function NextTimes(i: int, n: nat, k: nat): (r: int)
    requires n > 0 && -1 <= i < n
    ensures -1 <= r < n
    ensures k > 0 ==> 0 <= r
  {
    if k == 0 then i else Next(NextTimes(i, n, k - 1), n)
  }

  /** Presses of "next" compose: `a` presses then `b` presses are `a + b` presses. */
  lemma {:induction false} NextTimesAdd(i: int, n: nat, a: nat, b: nat)
    requires n > 0 && -1 <= i < n
    ensures NextTimes(i, n, a + b) == NextTimes(NextTimes(i, n, a), n, b)
  {
    if b > 0 {
      NextTimesAdd(i, n, a, b - 1);
    }
  }

  /** Before the end of the snapshot is reached, each press moves one picture on. */
  lemma {:induction false} NextTimesNoWrap(i: int, n: nat, k: nat)
    requires n > 0 && 0 <= i && i + k < n
    ensures NextTimes(i, n, k) == i + k
  {
    if k > 0 {
      NextTimesNoWrap(i, n, k - 1);
    }
  }

  /** Pressing "next" once per picture returns to the starting picture. */
  lemma NextFullCycle(i: int, n: nat)
    requires n > 0 && 0 <= i < n
    ensures NextTimes(i, n, n) == i
  {
    NextTimesNoWrap(i, n, n - 1 - i);
    assert NextTimes(i, n, n - i) == 0;
    NextTimesAdd(i, n, n - i, i);
    NextTimesNoWrap(0, n, i);
  }
}
