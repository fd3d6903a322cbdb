/** The power-of-two test, and the masking it makes sound. */
module NumericOps {
  import opened Foundations

  /** Bitwise AND of unsigned numbers of any width. */
  function BitAnd(a: nat, b: nat): nat {
    if a == 0 || b == 0 then 0
    else (if a % 2 == 1 && b % 2 == 1 then 1 else 0) + 2 * BitAnd(a / 2, b / 2)
  }

  predicate IsPower2(i: nat)
    requires IsSize(i)
  {
    BitAnd(i, WrapSub(i, 1)) == 0 && i != 0
  }

  lemma {:induction false} BitAndSelf(a: nat)
    ensures BitAnd(a, a) == a
  {
    if a != 0 {
      BitAndSelf(a / 2);
    }
  }

  ghost predicate IsPowerOfTwo(i: nat) {
    exists k: nat :: i == Pow2(k)
  }

  lemma DoublePowerOfTwo(j: nat)
    requires j > 0
    ensures IsPowerOfTwo(2 * j) <==> IsPowerOfTwo(j)
    ensures !IsPowerOfTwo(2 * j + 1)
  {
    if IsPowerOfTwo(j) {
      var k: nat :| j == Pow2(k);
      assert 2 * j == Pow2(k + 1);
    }
    if IsPowerOfTwo(2 * j) {
      var k: nat :| 2 * j == Pow2(k);
      assert j == Pow2(k - 1);
    }
  }

  lemma {:induction false} LowBitsCleared(i: nat)
    requires i > 0
    ensures BitAnd(i, i - 1) == 0 <==> IsPowerOfTwo(i)
  {
    var j := i / 2;
    if i == 1 {
      assert Pow2(0) == 1;
    } else if i % 2 == 1 {
      BitAndSelf(j);
      assert i == 2 * j + 1 && BitAnd(i, i - 1) == 2 * BitAnd(j, j);
      DoublePowerOfTwo(j);
    } else {
      LowBitsCleared(j);
      assert i == 2 * j && BitAnd(i, i - 1) == 2 * BitAnd(j, j - 1);
      DoublePowerOfTwo(j);
    }
  }

  /** The test accepts exactly the powers of two. */
  lemma IsPower2Iff(i: nat)
    requires IsSize(i)
    ensures IsPower2(i) <==> IsPowerOfTwo(i)
  {
    if i > 0 {
      LowBitsCleared(i);
    }
  }

  lemma {:induction false} MaskIsRemainder(x: nat, k: nat)
    ensures BitAnd(x, Pow2(k) - 1) == Mod(x, Pow2(k))
    decreases k
  {
    if k > 0 {
      var p := Pow2(k - 1);
      MaskIsRemainder(x / 2, k - 1);
      HalfRemainder(x, p);
      assert (2 * p - 1) / 2 == p - 1 && (2 * p - 1) % 2 == 1;
    }
  }

  lemma {:induction false} HalfRemainder(x: nat, p: nat)
    requires p > 0
    ensures Mod(x, 2 * p) == 2 * Mod(x / 2, p) + x % 2
  {
    if x >= 2 * p {
      HalfRemainder(x - 2 * p, p);
      assert (x - 2 * p) / 2 == x / 2 - p;
    }
  }

  predicate MaskTakesRemainder(x: nat, size: nat)
    requires size > 0
  {
    BitAnd(Wrap(x), size - 1) == Mod(x, size)
  }

  lemma MaskOfWrapped(x: nat, k: nat)
    requires k <= SIZE_BITS
    ensures MaskTakesRemainder(x, Pow2(k))
  {
    MaskIsRemainder(Wrap(x), k);
    WrapKeepsRemainder(x, k);
  }

  lemma ExponentFits(size: nat) returns (k: nat)
    requires IsSize(size) && IsPowerOfTwo(size)
    ensures k < SIZE_BITS && size == Pow2(k) && 2 * size <= Modulus()
  {
    k :| size == Pow2(k);
    if k >= SIZE_BITS {
      Pow2Monotone(SIZE_BITS, k);
      assert false;
    }
    Pow2Monotone(k + 1, SIZE_BITS);
  }

  /** A size that passes the test leaves room for an index to wrap, and masking an index,
      wrapped or not, gives its remainder. */
  lemma AcceptedSize(size: nat) returns (k: nat)
    requires IsSize(size) && IsPower2(size)
    ensures k < SIZE_BITS && size == Pow2(k) && 2 * size <= Modulus()
    ensures forall x: nat :: MaskTakesRemainder(x, size)
  {
    IsPower2Iff(size);
    k := ExponentFits(size);
    forall x: nat ensures MaskTakesRemainder(x, size) {
      MaskOfWrapped(x, k);
    }
  }
}
