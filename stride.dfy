/**
 * Arithmetic of the probe sequence. A key whose home bucket is `start` is
 * looked for at `start`, `start + 17`, `start + 34`, ... (mod the table's
 * length). Because 17 is prime, a length that is not a multiple of 17 makes
 * the first `n` probes visit every slot exactly once.
 */
module Stride {

  /** The fixed distance between successive probes. */
  const PROBE_OFFSET: nat := 17

  /** The slot visited at probe step `j` from `start` in a table of `n` slots. */
  function Slot(n: nat, start: nat, j: nat): (r: nat)
    requires n > 0
    ensures r < n
  {
    (start + PROBE_OFFSET * j) % n
  }

  /** Step 0 of the probe sequence is its start. */
  lemma SlotZero(n: nat, start: nat)
    requires start < n
    ensures Slot(n, start, 0) == start
  {
    DivModUnique(start, n, 0, start);
  }

  /** Euclidean division is determined by its quotient/remainder equation. */
  lemma DivModUnique(a: int, n: int, q: int, r: int)
    requires n > 0 && 0 <= r < n && a == q * n + r
    ensures a / n == q && a % n == r
  {
    var q0, r0 := a / n, a % n;
    var d := q - q0;
    assert d * n == r0 - r by {
      assert q * n - q0 * n == (q - q0) * n;
    }
    MulBounds(d, n);
  }

  /** A nonzero multiple of `n` is at least `n` away from 0. */
  lemma MulBounds(d: int, n: int)
    requires n > 0
    ensures d >= 1 ==> d * n >= n
    ensures d <= -1 ==> d * n <= -n
  {
    if d >= 1 {
      assert d * n == (d - 1) * n + n;
      assert (d - 1) * n >= 0;
    } else if d <= -1 {
      assert d * n == (d + 1) * n - n;
      assert (d + 1) * n <= 0;
    }
  }

  /** A multiple `n * m` strictly between 0 and `n` does not exist. */
  lemma NoMultipleBelow(n: int, m: int, d: int)
    requires n > 0 && d == n * m
    ensures d <= 0 || d >= n
  {
    if m >= 1 {
      assert n * m >= n;
    } else {
      assert n * m <= 0;
    }
  }

  /** Reducing the left summand first does not change a remainder. */
  lemma ModAddMod(a: nat, c: nat, n: nat)
    requires n > 0
    ensures (a % n + c) % n == (a + c) % n
  {
    var q, r := a / n, a % n;
    var q2, r2 := (r + c) / n, (r + c) % n;
    assert a + c == (q + q2) * n + r2;
    DivModUnique(a + c, n, q + q2, r2);
  }

  /** The iterative step of the source, `(g + 17) % n`, follows the closed form. */
  lemma SlotNext(n: nat, start: nat, j: nat)
    requires n > 0
    ensures Slot(n, start, j + 1) == (Slot(n, start, j) + PROBE_OFFSET) % n
  {
    ModAddMod(start + PROBE_OFFSET * j, PROBE_OFFSET, n);
  }

  /** Probing `t` more steps from the slot reached after `i` steps. */
  lemma SlotShift(n: nat, start: nat, i: nat, t: nat)
    requires n > 0
    ensures Slot(n, Slot(n, start, i), t) == Slot(n, start, i + t)
  {
    var a := start + PROBE_OFFSET * i;
    ModAddMod(a, PROBE_OFFSET * t, n);
    assert Slot(n, start, i) == a % n;
    assert start + PROBE_OFFSET * (i + t) == a + PROBE_OFFSET * t;
  }

  /** After `n` steps the probe sequence is back where it started. */
  lemma SlotWrap(n: nat, start: nat)
    requires 0 < n && start < n
    ensures Slot(n, start, n) == start
  {
    DivModUnique(start + PROBE_OFFSET * n, n, PROBE_OFFSET, start);
  }

  /** 17 has an inverse modulo every length that is not a multiple of 17:
      `17 * x == n * k + 1`. */
  lemma StrideInverse(n: nat) returns (x: nat, k: nat)
    requires n > 0 && n % PROBE_OFFSET != 0
    ensures PROBE_OFFSET * x == n * k + 1
  {
    var q, r := n / PROBE_OFFSET, n % PROBE_OFFSET;
    var c: nat;
    // k is minus the inverse of r modulo 17, so that r * k + 1 == 17 * c.
    if r == 1 { k, c := 16, 1; }
    else if r == 2 { k, c := 8, 1; }
    else if r == 3 { k, c := 11, 2; }
    else if r == 4 { k, c := 4, 1; }
    else if r == 5 { k, c := 10, 3; }
    else if r == 6 { k, c := 14, 5; }
    else if r == 7 { k, c := 12, 5; }
    else if r == 8 { k, c := 2, 1; }
    else if r == 9 { k, c := 15, 8; }
    else if r == 10 { k, c := 5, 3; }
    else if r == 11 { k, c := 3, 2; }
    else if r == 12 { k, c := 7, 5; }
    else if r == 13 { k, c := 13, 10; }
    else if r == 14 { k, c := 6, 5; }
    else if r == 15 { k, c := 9, 8; }
    else { assert r == 16; k, c := 1, 1; }
    x := q * k + c;
    InverseFrom(n, q, r, k, c);
  }

  /** With `n == 17 * q + r` and `r * k + 1 == 17 * c`, the number
      `q * k + c` is an inverse of 17 modulo `n`. */
  lemma InverseFrom(n: int, q: int, r: int, k: int, c: int)
    requires n == PROBE_OFFSET * q + r && r * k + 1 == PROBE_OFFSET * c
    ensures PROBE_OFFSET * (q * k + c) == n * k + 1
  {
    assert n * k == PROBE_OFFSET * (q * k) + r * k;
  }

  /** Different steps below `n` reach different slots (when 17 does not divide `n`). */
  lemma SlotInjective(n: nat, start: nat, i: nat, j: nat)
    requires n > 0 && n % PROBE_OFFSET != 0
    requires i < n && j < n && Slot(n, start, i) == Slot(n, start, j)
    ensures i == j
  {
    if i > j {
      SlotInjective(n, start, j, i);
    } else if i < j {
      var x, k := StrideInverse(n);
      var a1, a2 := start + PROBE_OFFSET * i, start + PROBE_OFFSET * j;
      var d := j - i;
      var c := a2 / n - a1 / n;
      assert PROBE_OFFSET * d == c * n by {
        assert a1 == (a1 / n) * n + a1 % n;
        assert a2 == (a2 / n) * n + a2 % n;
      }
      var m := x * c - k * d;
      InjectiveStep(n, x, k, d, c);
      NoMultipleBelow(n, m, d);
    }
  }

  /** If `17 * d` is a multiple `c * n` of `n` and `17 * x == n * k + 1`,
      then `d` itself is a multiple of `n`. */
  lemma InjectiveStep(n: int, x: int, k: int, d: int, c: int)
    requires PROBE_OFFSET * x == n * k + 1 && PROBE_OFFSET * d == c * n
    ensures d == n * (x * c - k * d)
  {
    calc {
      d;
      (PROBE_OFFSET * x - n * k) * d;
      x * (PROBE_OFFSET * d) - n * k * d;
      x * (c * n) - n * k * d;
      n * (x * c - k * d);
    }
  }

  /** Different steps below `n` reach different slots, stated positively. */
  lemma SlotDistinct(n: nat, start: nat, i: nat, j: nat)
    requires n > 0 && n % PROBE_OFFSET != 0
    requires i < n && j < n && i != j
    ensures Slot(n, start, i) != Slot(n, start, j)
  {
    if Slot(n, start, i) == Slot(n, start, j) {
      SlotInjective(n, start, i, j);
    }
  }

  /** Every slot is reached within the first `n` steps (when 17 does not divide `n`). */
  lemma SlotCovers(n: nat, start: nat, e: nat) returns (j: nat)
    requires n > 0 && n % PROBE_OFFSET != 0 && e < n
    ensures j < n && Slot(n, start, j) == e
  {
    var x, k := StrideInverse(n);
    var d: nat := e + n - start % n;
    j := (x * d) % n;
    var f := (x * d) / n;
    assert x * d == f * n + j;
    CoverStep(n, x, k, d, f, j);
    var m := start / n + 1 + k * d - PROBE_OFFSET * f;
    assert start + PROBE_OFFSET * j == m * n + e by {
      assert start == (start / n) * n + start % n;
    }
    DivModUnique(start + PROBE_OFFSET * j, n, m, e);
  }

  /** Multiplying `x * d == f * n + j` by 17, with `17 * x == n * k + 1`,
      shows `17 * j` is `d` plus a multiple of `n`. */
  lemma CoverStep(n: int, x: int, k: int, d: int, f: int, j: int)
    requires PROBE_OFFSET * x == n * k + 1 && x * d == f * n + j
    ensures PROBE_OFFSET * j == d + n * (k * d - PROBE_OFFSET * f)
  {
    calc {
      PROBE_OFFSET * j;
      PROBE_OFFSET * (x * d) - PROBE_OFFSET * (f * n);
      { assert PROBE_OFFSET * (x * d) == (PROBE_OFFSET * x) * d; }
      (n * k + 1) * d - PROBE_OFFSET * (f * n);
      d + n * (k * d - PROBE_OFFSET * f);
    }
  }
}
