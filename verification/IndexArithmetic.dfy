/** The integer arithmetic of generated index expressions: rounding to powers of two, bit masks and
    the C++ remainder.  Logarithms and powers are exact; integers are unbounded.
 */
module IndexArithmetic {

  function Pow2(k: nat): (p: nat)
    ensures p >= 1
  {
    if k == 0 then 1 else 2 * Pow2(k - 1)
  }

  ghost predicate IsPow2(x: int) {
    exists k: nat :: x == Pow2(k)
  }

  /** floor(log2(x)) */
  function FloorLog2(x: int): (k: nat)
    requires x >= 1
    ensures Pow2(k) <= x < 2 * Pow2(k)
  {
    if x == 1 then 0 else 1 + FloorLog2(x / 2)
  }

  /** ceil(log2(x)) */
  function CeilLog2(x: int): (k: nat)
    requires x >= 1
    ensures x <= Pow2(k) && (k == 0 || Pow2(k - 1) < x)
  {
    if x == 1 then 0 else 1 + CeilLog2((x + 1) / 2)
  }

  /** The size as cpp_target.cpp rounds it. */
  function RoundUp(size: int): (r: nat)
    requires size >= 1
    ensures r >= size
  {
    Pow2(CeilLog2(size))
  }

  /** The test by which the generator decides to mask instead of dividing. */
  predicate SizeIsPowerOfTwo(size: int)
    requires size >= 1
  {
    size == Pow2(FloorLog2(size))
  }

  lemma {:induction false} Pow2Increases(a: nat, b: nat)
    requires a < b
    ensures 2 * Pow2(a) <= Pow2(b)
  {
    if a + 1 < b {
      Pow2Increases(a, b - 1);
    }
  }

  /** The rounded size is the least power of two that is not below the size. */
  lemma RoundUpIsLeast(size: int, k: nat)
    requires size >= 1
    ensures IsPow2(RoundUp(size))
    ensures Pow2(k) >= size ==> Pow2(k) >= RoundUp(size)
  {
    var c := CeilLog2(size);
    if k < c {
      if k < c - 1 {
        Pow2Increases(k, c - 1);
      }
    } else if c < k {
      Pow2Increases(c, k);
    }
  }

  lemma SizeTestIsExact(size: int)
    requires size >= 1
    ensures SizeIsPowerOfTwo(size) <==> IsPow2(size)
  {
    if IsPow2(size) {
      var k: nat :| size == Pow2(k);
      var f := FloorLog2(size);
      if f < k {
        Pow2Increases(f, k);
      } else if k < f {
        Pow2Increases(k, f);
      }
    }
  }

  /** Bitwise and of a two's complement integer of any width with a non-negative mask. */
  function BitAnd(i: int, mask: nat): nat
    decreases mask
  {
    if mask == 0 then 0 else (i % 2) * (mask % 2) + 2 * BitAnd(i / 2, mask / 2)
  }

  lemma DoubleModulo(i: int, m: int)
    requires m >= 1
    ensures i % (2 * m) == i % 2 + 2 * ((i / 2) % m)
  {
    var q, r := (i / 2) / m, (i / 2) % m;
    assert i == 2 * (m * q + r) + i % 2;
    assert i == (2 * m) * q + (2 * r + i % 2);
    QuotientUnique(i, 2 * m, q, 2 * r + i % 2);
  }

  lemma MultipleIsFar(m: int, d: int)
    requires m >= 1
    ensures d == 0 || m * d >= m || m * d <= -m
  {
    if d > 0 {
      assert m * d >= m;
    } else if d < 0 {
      assert m * d <= -m;
    }
  }

  lemma QuotientUnique(i: int, m: int, q: int, r: int)
    requires m >= 1 && i == m * q + r && 0 <= r < m
    ensures i % m == r && i / m == q
  {
    assert m * (q - i / m) == i % m - r;
    MultipleIsFar(m, q - i / m);
  }

  lemma HalfOfMask(m: int)
    requires m >= 1
    ensures (2 * m - 1) % 2 == 1 && (2 * m - 1) / 2 == m - 1
  {
  }

  /** Masking with a power of two less one is the modulo, for negative integers too. */
  lemma {:induction false} MaskIsModulo(i: int, k: nat)
    ensures BitAnd(i, Pow2(k) - 1) == i % Pow2(k)
    decreases k
  {
    if k > 0 {
      var m := Pow2(k - 1);
      HalfOfMask(m);
      MaskIsModulo(i / 2, k - 1);
      DoubleModulo(i, m);
      assert BitAnd(i, 2 * m - 1) == i % 2 + 2 * BitAnd(i / 2, m - 1);
    }
  }

  /** C++ `%` with a positive divisor: the quotient is truncated toward zero. */
  function Rem(i: int, m: int): int
    requires m >= 1
  {
    if i >= 0 then i % m else -((-i) % m)
  }

  /** The remainder is the modulo exactly for non-negative indexes and multiples. */
  lemma RemIsModuloExactly(i: int, m: int)
    requires m >= 1
    ensures Rem(i, m) == i % m <==> i >= 0 || i % m == 0
  {
    if i < 0 {
      var r := (-i) % m;
      if r == 0 {
        QuotientUnique(i, m, -((-i) / m), 0);
      } else {
        assert i == m * (-((-i) / m)) - r;
        assert i == m * (-((-i) / m) - 1) + (m - r);
        QuotientUnique(i, m, -((-i) / m) - 1, m - r);
      }
    }
  }

  /** Wrapping an index as the generator writes it. */
  function Wrap(i: int, size: int): int
    requires size >= 1
  {
    if SizeIsPowerOfTwo(size) then BitAnd(i, size - 1) else Rem(i, size)
  }

  lemma WrapIsModulo(i: int, size: int)
    requires size >= 1 && i >= 0
    ensures Wrap(i, size) == i % size
  {
    if SizeIsPowerOfTwo(size) {
      MaskIsModulo(i, FloorLog2(size));
    }
  }

  lemma ModuloOfSum(a: int, b: int, m: int)
    requires m >= 1
    ensures (a + b % m) % m == (a + b) % m
  {
    var q, r := (a + b) / m, (a + b) % m;
    assert a + b % m == m * (q - b / m) + r;
    QuotientUnique(a + b % m, m, q - b / m, r);
  }

  lemma {:induction false} ProductGrows(a: int, b: int, c: int)
    requires a <= b && c >= 0
    ensures a * c <= b * c
    decreases b - a
  {
    if a < b {
      ProductGrows(a + 1, b, c);
      Distribute(a, 1, c);
    }
  }

  lemma Distribute(a: int, b: int, c: int)
    ensures (a + b) * c == a * c + b * c
  {
  }
}
