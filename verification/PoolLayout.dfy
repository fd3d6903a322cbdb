/** Where the pool's blocks lie. A pointer is an offset into the buffer. */
module PoolLayout {
  import opened Foundations

  /** The start of block `i`, as unsigned arithmetic computes it. */
  function Slot(size: nat, i: nat): (offset: nat)
    ensures IsSize(offset)
  {
    Wrap(i * size)
  }

  function Slots(size: nat, count: nat): (s: seq<nat>)
    ensures |s| == count
    ensures forall i | 0 <= i < count :: s[i] == Slot(size, i)
  {
    seq(count, i requires 0 <= i < count => Slot(size, i))
  }

  /** The check made on a configuration: the product is reduced before it is compared. */
  predicate Accepted(bufferSize: nat, size: nat, count: nat) {
    bufferSize >= Wrap(size * count)
  }

  predicate Fits(bufferSize: nat, size: nat, count: nat) {
    size * count <= bufferSize
  }

  lemma {:induction false} Multiples(size: nat, i: nat, j: nat)
    requires i <= j
    ensures i * size <= j * size
    ensures i < j ==> i * size + size <= j * size
    decreases j - i
  {
    if i < j {
      Multiples(size, i, j - 1);
      assert j * size == (j - 1) * size + size;
    }
  }

  /** Blocks of a configuration that fits lie inside the buffer, one behind the other. */
  lemma BlocksInOrder(bufferSize: nat, size: nat, count: nat, i: nat, j: nat)
    requires IsSize(bufferSize) && Fits(bufferSize, size, count) && size > 0
    requires i < j < count
    ensures Slot(size, i) + size <= Slot(size, j)
    ensures Slot(size, j) + size <= bufferSize
  {
    Multiples(size, i, j);
    Multiples(size, j, count);
  }

  lemma BlockInside(bufferSize: nat, size: nat, count: nat, i: nat)
    requires IsSize(bufferSize) && Fits(bufferSize, size, count) && size > 0 && i < count
    ensures Slot(size, i) + size <= bufferSize
  {
    Multiples(size, i, count);
  }

  /** All blocks lie inside the buffer exactly when the unreduced product fits. */
  lemma BlocksInsideIffFits(bufferSize: nat, size: nat, count: nat)
    requires IsSize(bufferSize) && size > 0
    ensures (forall i | 0 <= i < count :: Slot(size, i) + size <= bufferSize)
            <==> Fits(bufferSize, size, count)
  {
    if Fits(bufferSize, size, count) {
      forall i | 0 <= i < count ensures Slot(size, i) + size <= bufferSize {
        BlockInside(bufferSize, size, count, i);
      }
    } else {
      var i := bufferSize / size;
      assert i * size <= bufferSize < i * size + size;
      if i >= count {
        Multiples(size, count, i);
        assert false;
      }
      assert Slot(size, i) + size > bufferSize;
    }
  }

  /** The check never refuses a configuration that fits, and accepts one that does not fit
      exactly when the product leaves `size_t` and wraps to no more than the buffer. */
  lemma AcceptedIffFitsOrWraps(bufferSize: nat, size: nat, count: nat)
    requires IsSize(bufferSize)
    ensures Accepted(bufferSize, size, count) <==>
              || Fits(bufferSize, size, count)
              || (!IsSize(size * count) && Wrap(size * count) <= bufferSize)
    ensures Fits(bufferSize, size, count) ==> IsSize(size * count)
  {
  }

  /** Two blocks of half the address space each pass the check for an empty buffer. */
  lemma AcceptedWithoutRoom()
    ensures var half := Pow2(SIZE_BITS - 1);
            IsSize(half) && Accepted(0, half, 2) && !Fits(0, half, 2)
  {
    var half := Pow2(SIZE_BITS - 1);
    assert half * 2 == Modulus();
    ModPeriodic(0, Modulus());
    AcceptedIffFitsOrWraps(0, half, 2);
  }

  /** Free and held blocks of a fitting pool share no block, repeat none, and any two held
      blocks are disjoint pieces of the buffer. */
  lemma FreeAndHeldPartition(bufferSize: nat, size: nat, count: nat, free: seq<nat>, held: multiset<nat>)
    requires IsSize(bufferSize) && Fits(bufferSize, size, count) && size > 0
    requires multiset(free) + held == multiset(Slots(size, count))
    ensures forall p | p in held :: held[p] == 1 && p !in free && p + size <= bufferSize
    ensures forall i, j | 0 <= i < j < |free| :: free[i] != free[j]
    ensures forall p, q | p in held && q in held && p != q :: p + size <= q || q + size <= p
    ensures forall i | 0 <= i < count :: Slot(size, i) in free || Slot(size, i) in held
  {
    var slots := Slots(size, count);
    forall i, j | 0 <= i < j < count ensures slots[i] != slots[j] {
      BlocksInOrder(bufferSize, size, count, i, j);
    }
    DistinctCounts(slots);
    forall p | p in held
      ensures held[p] == 1 && p !in free && p + size <= bufferSize
    {
      var i := HeldIsSlot(size, count, free, held, p);
      BlockInside(bufferSize, size, count, i);
      assert multiset(free)[p] + held[p] == multiset(slots)[p];
    }
    forall p, q | p in held && q in held && p != q
      ensures p + size <= q || q + size <= p
    {
      var i := HeldIsSlot(size, count, free, held, p);
      var j := HeldIsSlot(size, count, free, held, q);
      if i < j {
        BlocksInOrder(bufferSize, size, count, i, j);
      } else {
        BlocksInOrder(bufferSize, size, count, j, i);
      }
    }
    forall i, j | 0 <= i < j < |free| ensures free[i] != free[j] {
      assert multiset(free)[free[i]] <= multiset(slots)[free[i]];
      if free[i] == free[j] {
        RepeatCounts(free, i, j);
      }
    }
    forall i | 0 <= i < count ensures Slot(size, i) in free || Slot(size, i) in held {
      assert slots[i] in multiset(slots);
    }
  }

  lemma HeldIsSlot(size: nat, count: nat, free: seq<nat>, held: multiset<nat>, p: nat) returns (i: nat)
    requires multiset(free) + held == multiset(Slots(size, count)) && p in held
    ensures i < count && p == Slot(size, i)
  {
    var slots := Slots(size, count);
    assert p in multiset(slots);
    assert p in slots;
    i :| 0 <= i < count && slots[i] == p;
  }

  lemma {:induction false} DistinctCounts(s: seq<nat>)
    requires forall i, j | 0 <= i < j < |s| :: s[i] != s[j]
    ensures forall p :: multiset(s)[p] <= 1
  {
    if s != [] {
      var front, last := s[..|s| - 1], s[|s| - 1];
      DistinctCounts(front);
      assert s == front + [last];
      assert last !in multiset(front);
    }
  }

  lemma RepeatCounts(s: seq<nat>, i: nat, j: nat)
    requires i < j < |s| && s[i] == s[j]
    ensures multiset(s)[s[i]] >= 2
  {
    var front, rest := s[..j], s[j..];
    assert s == front + rest;
    assert front[i] in multiset(front) && rest[0] in multiset(rest);
  }
}
