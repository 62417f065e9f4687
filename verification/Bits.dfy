/** Bitwise AND and right shift on naturals, and what they mean for power-of-two operands. */
module Bits {

  /** Bitwise AND, one binary digit at a time. */
  function BitAnd(a: nat, b: nat): nat
    decreases a
  {
    if a == 0 then 0
    else (if a % 2 == 1 && b % 2 == 1 then 1 else 0) + 2 * BitAnd(a / 2, b / 2)
  }

  predicate PowerOfTwo(n: nat) {
    n == 1 || (n > 1 && n % 2 == 0 && PowerOfTwo(n / 2))
  }

  /** Masking with a power of two minus one is the remainder: the table's bucket index is in range. */
  lemma {:induction false} MaskIsMod(a: nat, n: nat)
    requires PowerOfTwo(n)
    ensures BitAnd(a, n - 1) == a % n
  {
    if n == 1 {
      MaskZero(a);
    } else if a > 0 {
      var h := n / 2;
      MaskIsMod(a / 2, h);
      MaskStep(a, h);
      ModDouble(a, h);
      assert n == 2 * h;
      assert BitAnd(a, n - 1) == a % (2 * h);
    } else {
      ZeroMod(n);
    }
  }

  lemma ZeroMod(n: nat)
    requires n > 0
    ensures 0 % n == 0
  {
  }

  lemma MaskStep(a: nat, h: nat)
    requires a > 0 && h > 0
    ensures BitAnd(a, 2 * h - 1) == a % 2 + 2 * BitAnd(a / 2, h - 1)
  {
    assert (2 * h - 1) / 2 == h - 1 && (2 * h - 1) % 2 == 1;
  }

  lemma {:induction false} MaskZero(a: nat)
    ensures BitAnd(a, 0) == 0
    decreases a
  {
    if a > 0 {
      MaskZero(a / 2);
    }
  }

  lemma ModDouble(a: nat, h: nat)
    requires h > 0
    ensures a % (2 * h) == a % 2 + 2 * ((a / 2) % h)
  {
    var q, r := (a / 2) / h, (a / 2) % h;
    assert a == 2 * (q * h + r) + a % 2;
    assert a == (2 * h) * q + (2 * r + a % 2);
    UniqueRemainder(a, 2 * h, q, 2 * r + a % 2);
  }

  lemma UniqueRemainder(a: nat, m: nat, q: nat, r: nat)
    requires m > 0 && r < m && a == m * q + r
    ensures a % m == r && a / m == q
  {
    NotBelow(m, a / m, a % m, q, r);
    NotBelow(m, q, r, a / m, a % m);
  }

  lemma NotBelow(m: nat, q: int, r: int, q': int, r': int)
    requires 0 <= r < m && 0 <= r' < m && m * q + r == m * q' + r'
    ensures q >= q'
  {
    if q < q' {
      var gap := q' - q;
      MulMonotone(m, 1, gap);
      Distribute(m, q, gap);
      assert false;
    }
  }

  lemma Distribute(m: nat, x: int, y: int)
    ensures m * (x + y) == m * x + m * y
  {
  }

  lemma MulMonotone(m: nat, x: int, y: int)
    requires x <= y
    ensures m * x <= m * y
  {
  }

  /** Doubling keeps a length a power of two. */
  lemma DoublePower(n: nat)
    requires PowerOfTwo(n)
    ensures PowerOfTwo(2 * n)
  {
    assert 2 * n / 2 == n;
  }
}
