/** Vocabulary shared by every component: the library's result codes, optional values,
    powers of two, and the arithmetic of `size_t`. */
module Foundations {

  /** The members of the library's error enumeration that the modelled components return. */
  datatype ErrorCode =
    | ErrNone
    | ErrNotInitialised
    | ErrNoMem
    | ErrInvalidArg
    | ErrTimeout
    | ErrOutOfBounds
    | ErrNoop
    | ErrIncomplete
    | ErrEmpty

  datatype Option<+T> = None | Some(value: T)

  type Byte = x: int | 0 <= x < 256

  function Pow2(k: nat): (p: nat)
    ensures p >= 1
  {
    if k == 0 then 1 else 2 * Pow2(k - 1)
  }

  lemma {:induction false} Pow2Monotone(j: nat, k: nat)
    requires j <= k
    ensures Pow2(j) <= Pow2(k)
  {
    if j < k {
      Pow2Monotone(j, k - 1);
    }
  }

  /** floor(log2 n), for positive n. */
  function Log2(n: nat): nat {
    if n < 2 then 0 else 1 + Log2(n / 2)
  }

  lemma {:induction false} Log2IsFloor(n: nat)
    requires n >= 1
    ensures Pow2(Log2(n)) <= n < Pow2(Log2(n) + 1)
  {
    if n >= 2 {
      Log2IsFloor(n / 2);
    }
  }

  lemma {:induction false} Log2Monotone(m: nat, n: nat)
    requires m <= n
    ensures Log2(m) <= Log2(n)
  {
    if m >= 2 {
      Log2Monotone(m / 2, n / 2);
    }
  }

  // ----- remainders -----

  /** The remainder of `x` modulo `m`, by repeated subtraction. */
  function Mod(x: nat, m: nat): (r: nat)
    requires m > 0
    ensures r < m
    ensures x < m ==> r == x
  {
    if x < m then x else Mod(x - m, m)
  }

  /** It is the mathematical remainder. */
  lemma {:induction false} ModIsRemainder(x: nat, m: nat)
    requires m > 0
    ensures Mod(x, m) == x % m
  {
    if x >= m {
      ModIsRemainder(x - m, m);
      RemainderPeriodic(x - m, m);
    }
  }

  lemma RemainderPeriodic(x: nat, m: nat)
    requires m > 0
    ensures (x + m) % m == x % m
  {
    var d := (x + m) / m - (x / m + 1);
    assert d * m == x % m - (x + m) % m;
    assert d >= 1 ==> d * m >= m;
    assert d <= -1 ==> d * m + m <= 0;
  }

  lemma ModPeriodic(x: nat, m: nat)
    requires m > 0
    ensures Mod(x + m, m) == Mod(x, m)
  {
  }

  /** Reducing an operand first does not change a reduced sum. */
  lemma {:induction false} ModAbsorbs(x: nat, y: nat, m: nat)
    requires m > 0
    ensures Mod(Mod(x, m) + y, m) == Mod(x + y, m)
  {
    if x >= m {
      ModAbsorbs(x - m, y, m);
      assert x - m + y == x + y - m;
    }
  }

  /** The distance between two numbers, seen through their remainders. */
  lemma ModDistance(x: nat, y: nat, m: nat)
    requires m > 0 && x <= y < x + m
    ensures Mod(Mod(y, m) + m - Mod(x, m), m) == y - x
  {
    ModAbsorbs(x, y - x, m);
  }

  lemma {:induction false} ModOfDouble(x: nat, m: nat)
    requires m > 0
    ensures Mod(Mod(x, 2 * m), m) == Mod(x, m)
  {
    if x >= 2 * m {
      ModOfDouble(x - 2 * m, m);
    }
  }

  lemma {:induction false} ModOfPower(x: nat, k: nat, j: nat)
    requires k <= j
    ensures Mod(Mod(x, Pow2(j)), Pow2(k)) == Mod(x, Pow2(k))
    decreases j - k
  {
    if k < j {
      ModOfPower(x, k + 1, j);
      ModOfDouble(Mod(x, Pow2(j)), Pow2(k));
      ModOfDouble(x, Pow2(k));
    }
  }

  // ----- size_t -----

  /** Width of `size_t`: any, from the 16 bits that section 7.20.3 of ISO/IEC 9899:2011
      asks for. */
  type SizeWidth = w: nat | w >= 16 witness 64

  const SIZE_BITS: SizeWidth

  /** One more than the largest `size_t`. */
  function Modulus(): (m: nat)
    ensures m >= 4
  {
    Pow2Monotone(2, SIZE_BITS);
    Pow2(SIZE_BITS)
  }

  predicate IsSize(x: int) {
    0 <= x < Modulus()
  }

  type Size = x: nat | x < Modulus()

  /** Unsigned arithmetic, section 6.2.5 of ISO/IEC 9899:2011: results are reduced. */
  function Wrap(x: nat): (r: nat)
    ensures IsSize(r)
    ensures IsSize(x) ==> r == x
  {
    Mod(x, Modulus())
  }

  function WrapSub(x: nat, y: nat): (r: nat)
    requires IsSize(x) && IsSize(y)
    ensures IsSize(r)
    ensures y <= x ==> r == x - y
  {
    Wrap(x + Modulus() - y)
  }

  lemma WrapStep(x: nat, y: nat)
    ensures Wrap(Wrap(x) + y) == Wrap(x + y)
  {
    ModAbsorbs(x, y, Modulus());
  }

  /** The distance between two running counts, computed from their wrapped values. */
  lemma WrapDistance(x: nat, y: nat)
    requires x <= y < x + Modulus()
    ensures WrapSub(Wrap(y), Wrap(x)) == y - x
  {
    ModDistance(x, y, Modulus());
  }

  /** Stepping a wrapped count back by less than it has run. */
  lemma WrapBack(x: nat, y: nat)
    requires y <= x && IsSize(y)
    ensures WrapSub(Wrap(x), y) == Wrap(x - y)
  {
    var m := Modulus();
    ModAbsorbs(x, m - y, m);
    assert Mod(x - y + m, m) == Mod(x - y, m);
  }

  /** A wrapped index keeps its remainder modulo any power of two that fits `size_t`. */
  lemma WrapKeepsRemainder(x: nat, k: nat)
    requires k <= SIZE_BITS
    ensures Mod(Wrap(x), Pow2(k)) == Mod(x, Pow2(k))
  {
    ModOfPower(x, k, SIZE_BITS);
  }
}
