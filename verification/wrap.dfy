/** Facts about the wrap-around `(cursor + 1) % length` both cyclers use. */
module Wrap {

  lemma MulAtLeast(a: int, n: int)
    requires a >= 1 && n > 0
    ensures a * n >= n
  {
    assert a * n == n + (a - 1) * n;
    assert (a - 1) * n >= 0;
  }

  /** The remainder is determined by any decomposition x == q * n + r with 0 <= r < n. */
  lemma ModUnique(x: int, q: int, r: int, n: int)
    requires n > 0 && 0 <= r < n && x == q * n + r
    ensures x % n == r
  {
    var q0 := x / n;
    var r0 := x % n;
    assert x == q0 * n + r0;
    assert (q - q0) * n == r0 - r;
    if q > q0 {
      MulAtLeast(q - q0, n);
    } else if q < q0 {
      MulAtLeast(q0 - q, n);
    }
  }

  /** Reducing before adding does not change the result modulo n. */
  lemma ModAddLeft(a: int, b: int, n: int)
    requires n > 0
    ensures (a % n + b) % n == (a + b) % n
  {
    var q := a / n;
    var s := a % n + b;
    var q1 := s / n;
    var r1 := s % n;
    assert s == q1 * n + r1;
    assert a + b == (q + q1) * n + r1;
    ModUnique(a + b, q + q1, r1, n);
  }

  /** The cursor after j + 1 wrap-around steps from c0 on a list of length n. */
  function Walk(c0: int, j: nat, n: nat): (i: int)
    requires n > 0
    ensures 0 <= i < n
    decreases j
  {
    if j == 0 then (c0 + 1) % n else (Walk(c0, j - 1, n) + 1) % n
  }

  /** Taking the first step, then j more, is j + 1 steps. */
  lemma {:induction false} WalkShift(c0: int, j: nat, n: nat)
    requires n > 0
    ensures Walk((c0 + 1) % n, j, n) == Walk(c0, j + 1, n)
    decreases j
  {
    if j > 0 {
      WalkShift(c0, j - 1, n);
    }
  }

  /** j + 1 steps from c0 land on (c0 + 1 + j) mod n. */
  lemma {:induction false} WalkIsMod(c0: int, j: nat, n: nat)
    requires n > 0
    ensures Walk(c0, j, n) == (c0 + 1 + j) % n
    decreases j
  {
    if j > 0 {
      WalkIsMod(c0, j - 1, n);
      ModAddLeft(c0 + 1 + (j - 1), 1, n);
    }
  }

  /** From the first element, j steps reach element j, and n steps wrap back to 0. */
  lemma WalkFromFirst(j: nat, n: nat)
    requires 1 <= j <= n
    ensures Walk(0, j - 1, n) == if j < n then j else 0
  {
    WalkIsMod(0, j - 1, n);
    if j < n {
      ModUnique(j, 0, j, n);
    } else {
      ModUnique(n, 1, 0, n);
    }
  }
}
