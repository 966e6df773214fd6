/**
 * The kernel's circular-buffer index arithmetic (linux/circ_buf.h) as the shadow
 * queue uses it: CIRC_CNT(h, t, R) = (h - t) & (R - 1) and
 * CIRC_SPACE(h, t, R) = CIRC_CNT(t, h + 1, R), evaluated on C ints.
 * `And` is bitwise AND on two's-complement integers of unbounded width, so the
 * macros are written here exactly as the C computes them; AndLowMask shows that
 * for a power-of-two R the mask is Euclidean remainder, which the rest of the
 * model reasons with.
 */
module CircBuf {

  /** The ring size must be a power of two for the masks to work. */
  predicate IsPowerOfTwo(n: int)
    decreases if n < 1 then 0 else n
  {
    n == 1 || (n >= 2 && n % 2 == 0 && IsPowerOfTwo(n / 2))
  }

  function Abs(x: int): nat
  {
    if x < 0 then -x else x
  }

  /** x & y on two's-complement integers (bit 0 first; -1 has every bit set). */
  function And(x: int, y: int): int
    decreases Abs(x) + Abs(y)
  {
    if x == 0 || y == 0 then 0
    else if x == -1 then y
    else if y == -1 then x
    else 2 * And(x / 2, y / 2) + (if x % 2 == 1 && y % 2 == 1 then 1 else 0)
  }

  /** CIRC_CNT: live entries between tail and head. */
  function CircCnt(head: int, tail: int, size: int): int
  {
    And(head - tail, size - 1)
  }

  /** CIRC_SPACE: free slots, keeping one slot always empty. */
  function CircSpace(head: int, tail: int, size: int): int
  {
    CircCnt(tail, head + 1, size)
  }

  lemma MulAtLeast(a: int, m: int)
    requires a >= 1 && m > 0
    ensures a * m >= m
  {}

  /** Euclidean remainder is determined by any quotient/remainder pair. */
  lemma ModUnique(x: int, m: int, q: int, r: int)
    requires m > 0 && 0 <= r < m && x == q * m + r
    ensures x % m == r
  {
    var q' := x / m;
    if q' < q {
      MulAtLeast(q - q', m);
    } else if q' > q {
      MulAtLeast(q' - q, m);
    }
  }

  lemma AndHalves(x: int, r: int)
    requires r >= 2 && r % 2 == 0 && x != 0 && x != -1
    ensures And(x, r - 1) == 2 * And(x / 2, r / 2 - 1) + x % 2
  {
    assert (r - 1) / 2 == r / 2 - 1 && (r - 1) % 2 == 1;
  }

  lemma ModHalves(x: int, r: int)
    requires r >= 2 && r % 2 == 0
    ensures x % r == 2 * ((x / 2) % (r / 2)) + x % 2
  {
    var h, q, b := r / 2, x / 2, x % 2;
    var a, m := q / h, q % h;
    assert q == a * h + m && 0 <= m < h;
    assert x == a * r + (2 * m + b) by {
      assert x == 2 * q + b;
      assert 2 * (a * h) == a * r;
    }
    ModUnique(x, r, a, 2 * m + b);
  }

  /** For a power of two r, masking with r - 1 is reduction modulo r, negative x included. */
  lemma {:induction false} AndLowMask(x: int, r: int)
    requires IsPowerOfTwo(r)
    ensures And(x, r - 1) == x % r
    decreases r
  {
    if r == 1 {
    } else if x == 0 {
    } else if x == -1 {
      ModUnique(x, r, -1, r - 1);
    } else {
      AndHalves(x, r);
      AndLowMask(x / 2, r / 2);
      ModHalves(x, r);
    }
  }

  /** Reduction of an index that has passed the end at most once. */
  lemma ModSmall(x: int, m: int)
    requires m > 0 && 0 <= x < 2 * m
    ensures x % m == if x < m then x else x - m
  {
    if x < m {
      ModUnique(x, m, 0, x);
    } else {
      ModUnique(x, m, 1, x - m);
    }
  }

  /**
   * With both indices in [0, R): CNT is the distance from tail forward to head,
   * CNT + SPACE == R - 1, so at most R - 1 entries are ever live.
   */
  lemma CircBounds(head: int, tail: int, r: int)
    requires IsPowerOfTwo(r) && 0 <= head < r && 0 <= tail < r
    ensures CircCnt(head, tail, r) == if tail <= head then head - tail else head - tail + r
    ensures CircSpace(head, tail, r) == r - 1 - CircCnt(head, tail, r)
  {
    AndLowMask(head - tail, r);
    AndLowMask(tail - (head + 1), r);
    if tail <= head {
      ModUnique(head - tail, r, 0, head - tail);
      ModUnique(tail - (head + 1), r, -1, tail - head - 1 + r);
    } else {
      ModUnique(head - tail, r, -1, head - tail + r);
      ModUnique(tail - (head + 1), r, 0, tail - head - 1);
    }
  }

  /** The index after i in a ring of r slots. */
  function Next(i: int, r: int): int
  {
    if i + 1 < r then i + 1 else 0
  }

  /** The index n steps after i. */
  function Advance(i: int, n: nat, r: int): int
    decreases n
  {
    if n == 0 then i else Advance(Next(i, r), n - 1, r)
  }

  /** n + 1 steps are n steps and one more. */
  lemma {:induction false} AdvanceSnoc(i: int, n: nat, r: int)
    ensures Advance(i, n + 1, r) == Next(Advance(i, n, r), r)
    decreases n
  {
    if n > 0 {
      AdvanceSnoc(Next(i, r), n - 1, r);
    }
  }

  /** (i + 1) & (R - 1) steps an index forward, wrapping from R - 1 to 0. */
  lemma NextIndex(i: int, r: int)
    requires IsPowerOfTwo(r) && 0 <= i < r
    ensures And(i + 1, r - 1) == Next(i, r)
  {
    AndLowMask(i + 1, r);
    ModSmall(i + 1, r);
  }

  /** Fewer than one full turn from an index in range passes the end at most once. */
  lemma {:induction false} AdvanceLinear(i: int, n: nat, r: int)
    requires 0 <= i < r && i + n < 2 * r
    ensures Advance(i, n, r) == if i + n < r then i + n else i + n - r
    decreases n
  {
    if n > 0 {
      if i + 1 < r {
        AdvanceLinear(i + 1, n - 1, r);
      } else {
        AdvanceLinear(0, n - 1, r);
      }
    }
  }
}
