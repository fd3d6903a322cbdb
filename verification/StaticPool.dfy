/** The pool: fixed-size blocks of one buffer, handed out from a stack of free blocks. */
module StaticPool {
  import opened Foundations
  import opened PoolLayout
  import opened PtrStack

  class Pool {
    var bufferSize: nat
    var objectSize: nat
    var objectCount: nat
    const freeStack: Stack<nat>
    // The blocks clients hold: allocated and not freed since.
    ghost var held: multiset<nat>

    /** Conservation: free and held blocks together are the blocks of the layout. */
    ghost predicate Valid()
      reads this, freeStack, freeStack.stack
    {
      && IsSize(bufferSize) && IsSize(objectSize) && IsSize(objectCount)
      && freeStack.Valid() && freeStack.maxItemCount == objectCount
      && multiset(Free()) + held == multiset(Slots(objectSize, objectCount))
    }

    ghost function Free(): seq<nat>
      requires freeStack.Valid()
      reads this, freeStack, freeStack.stack
    {
      freeStack.Items()
    }

    constructor (allocationStack: array<nat>)
      ensures fresh(freeStack) && freeStack.stack == allocationStack
    {
      bufferSize, objectSize, objectCount, held := 0, 0, 0, multiset{};
      freeStack := new Stack<nat>(allocationStack);
    }

    /** With no objects the stack refuses to be set up and stays as it was; a fresh one is
        empty, which is then right. */
    method Init(allocationStack: array<nat>, bufferSize: nat, objectSize: nat, objectCount: nat)
      returns (code: ErrorCode)
      requires IsSize(bufferSize) && IsSize(objectSize) && IsSize(objectCount)
      requires objectCount <= allocationStack.Length
      modifies this, freeStack, allocationStack
      ensures code == if Accepted(bufferSize, objectSize, objectCount) then ErrNone else ErrInvalidArg
      ensures code != ErrNone ==> unchanged(this) && unchanged(freeStack) && unchanged(allocationStack)
      ensures code == ErrNone ==>
                && this.bufferSize == bufferSize && this.objectSize == objectSize
                && this.objectCount == objectCount && held == multiset{}
      ensures code == ErrNone && objectCount > 0 ==>
                Valid() && Free() == Slots(objectSize, objectCount) && freeStack.stack == allocationStack
      ensures code == ErrNone && objectCount == 0 ==>
                && unchanged(freeStack) && unchanged(allocationStack)
                && (Valid() <==> freeStack.stackTop == freeStack.maxItemCount == 0)
    {
      hide Mod, Modulus, Pow2, Slots;
      if bufferSize < Wrap(objectSize * objectCount) { return ErrInvalidArg; }
      this.bufferSize, this.objectSize, this.objectCount := bufferSize, objectSize, objectCount;
      held := multiset{};
      var _ := freeStack.Init(allocationStack, objectCount);
      if objectCount > 0 {
        PushBlocks(allocationStack);
      }
      return ErrNone;
    }

    /** Pushes the blocks, in the order of the buffer, on the empty stack. */
    method PushBlocks(allocationStack: array<nat>)
      requires freeStack.Valid() && freeStack.Items() == [] && freeStack.maxItemCount == objectCount
      requires freeStack.stack == allocationStack
      modifies freeStack`stackTop, allocationStack
      ensures freeStack.Valid() && Free() == Slots(objectSize, objectCount)
    {
      hide Mod, Modulus, Pow2, Wrap;
      ghost var slots := Slots(objectSize, objectCount);
      for idx := 0 to objectCount
        modifies freeStack`stackTop, allocationStack
        invariant freeStack.Valid() && freeStack.Items() == slots[..idx]
      {
        var _ := freeStack.Push(Wrap(idx * objectSize));
      }
      assert slots[..objectCount] == slots;
    }

    /** On failure the caller's pointer is left alone. */
    method Allocate(pointer: Option<nat>) returns (code: ErrorCode, newPointer: Option<nat>)
      requires Valid()
      modifies freeStack`stackTop, this`held
      ensures Valid()
      ensures code == if |old(held)| == objectCount then ErrNoMem else ErrNone
      ensures code == ErrNoMem ==> newPointer == pointer && held == old(held) && Free() == old(Free())
      ensures code == ErrNone ==>
                && newPointer.Some? && held == old(held) + multiset{newPointer.value}
                && Free() + [newPointer.value] == old(Free())
    {
      hide Slots;
      CountFree();
      var token: Option<nat>;
      code, token := freeStack.Pop();
      if code == ErrNone {
        held := held + multiset{token.value};
        return ErrNone, token;
      }
      return ErrNoMem, pointer;
    }

    /** The pointer passed is cleared. A full stack takes nothing back. Conservation survives
        exactly when the block was held, or there was no block, or the stack was full. */
    method Deallocate(pointer: Option<nat>) returns (code: ErrorCode, newPointer: Option<nat>)
      requires Valid()
      modifies freeStack`stackTop, freeStack.stack, this`held
      ensures newPointer == None && freeStack.Valid()
      ensures pointer == None ==> code == ErrOutOfBounds && held == old(held) && Free() == old(Free())
      ensures pointer.Some? ==>
                && code == ErrNone && held == old(held) - multiset{pointer.value}
                && Free() == if old(held) == multiset{} then old(Free()) else old(Free()) + [pointer.value]
      ensures Valid() <==> pointer == None || pointer.value in old(held) || old(held) == multiset{}
    {
      if pointer == None { return ErrOutOfBounds, pointer; }
      hide Slots;
      CountFree();
      var _ := freeStack.Push(pointer.value);
      held := held - multiset{pointer.value};
      ghost var before, after := old(Free()), Free();
      if pointer.value in old(held) {
        assert multiset(after) + held == multiset(before) + old(held);
      } else if old(held) != multiset{} {
        assert |multiset(after) + held| == |before| + 1 + |old(held)|;
      }
      return ErrNone, None;
    }

    lemma CountFree()
      requires Valid()
      ensures |Free()| + |held| == objectCount
    {
      assert |multiset(Free()) + held| == |Free()| + |held|;
      assert |multiset(Slots(objectSize, objectCount))| == objectCount;
    }

    function AvailableCount(): (n: nat)
      requires Valid()
      reads this, freeStack, freeStack.stack
      ensures n == |Free()| && n + |held| == objectCount
    {
      CountFree();
      objectCount - freeStack.RemainingCount()
    }
  }

  /** A client that asks for blocks and gives back ones it holds, by position. */
  datatype Request = Take | GiveBack(position: nat)

  /** Any such run, on any pool that starts with no block held, keeps the blocks conserved; on
      one that fits its buffer the client's blocks are distinct, disjoint and inside it, and
      none of them is free. */
  method DrivePool(pool: Pool, requests: seq<Request>) returns (blocks: seq<nat>)
    requires pool.Valid() && pool.held == multiset{}
    modifies pool`held, pool.freeStack`stackTop, pool.freeStack.stack
    ensures pool.Valid() && pool.held == multiset(blocks)
    ensures |pool.Free()| + |blocks| == pool.objectCount
    ensures Fits(pool.bufferSize, pool.objectSize, pool.objectCount) && pool.objectSize > 0 ==>
              && (forall i | 0 <= i < |blocks| ::
                    blocks[i] !in pool.Free() && blocks[i] + pool.objectSize <= pool.bufferSize)
              && (forall i, j | 0 <= i < j < |blocks| ::
                    Apart(blocks[i], blocks[j], pool.objectSize))
  {
    blocks := [];
    for n := 0 to |requests|
      invariant pool.Valid() && pool.held == multiset(blocks)
    {
      match requests[n] {
        case Take =>
          var code, pointer := pool.Allocate(None);
          if code == ErrNone {
            blocks := blocks + [pointer.value];
          }
        case GiveBack(k) =>
          if k < |blocks| {
            RemoveAt(blocks, k);
            var _, _ := pool.Deallocate(Some(blocks[k]));
            blocks := blocks[..k] + blocks[k + 1..];
          }
      }
    }
    pool.CountFree();
    if Fits(pool.bufferSize, pool.objectSize, pool.objectCount) && pool.objectSize > 0 {
      HeldBlocksApart(pool.bufferSize, pool.objectSize, pool.objectCount, pool.Free(), blocks);
    }
  }

  predicate Apart(p: nat, q: nat, size: nat) {
    p + size <= q || q + size <= p
  }

  lemma RemoveAt(s: seq<nat>, k: nat)
    requires k < |s|
    ensures s[k] in multiset(s)
    ensures multiset(s[..k] + s[k + 1..]) == multiset(s) - multiset{s[k]}
  {
    assert s == s[..k] + [s[k]] + s[k + 1..];
  }

  lemma HeldBlocksApart(bufferSize: nat, size: nat, count: nat, free: seq<nat>, blocks: seq<nat>)
    requires IsSize(bufferSize) && Fits(bufferSize, size, count) && size > 0
    requires multiset(free) + multiset(blocks) == multiset(Slots(size, count))
    ensures forall i | 0 <= i < |blocks| :: blocks[i] !in free && blocks[i] + size <= bufferSize
    ensures forall i, j | 0 <= i < j < |blocks| :: Apart(blocks[i], blocks[j], size)
  {
    FreeAndHeldPartition(bufferSize, size, count, free, multiset(blocks));
    forall i | 0 <= i < |blocks|
      ensures blocks[i] !in free && blocks[i] + size <= bufferSize
    {
      assert blocks[i] in multiset(blocks);
    }
    forall i, j | 0 <= i < j < |blocks|
      ensures Apart(blocks[i], blocks[j], size)
    {
      assert blocks[i] in multiset(blocks) && blocks[j] in multiset(blocks);
      if blocks[i] == blocks[j] {
        RepeatCounts(blocks, i, j);
      }
    }
  }

  /** A block just freed is the next one handed out. */
  method FreeThenAllocate(pool: Pool, block: nat) returns (again: Option<nat>)
    requires pool.Valid() && block in pool.held
    modifies pool`held, pool.freeStack`stackTop, pool.freeStack.stack
    ensures pool.Valid() && again == Some(block)
    ensures pool.held == old(pool.held) && pool.Free() == old(pool.Free())
  {
    hide Slots, IsSize, Fits, Mod, Modulus;
    ghost var free, blocks := pool.Free(), pool.held;
    pool.CountFree();
    var _, cleared := pool.Deallocate(Some(block));
    ghost var rest := pool.held;
    assert |blocks| == |rest| + 1;
    var _, pointer := pool.Allocate(cleared);
    SnocInjective(pool.Free(), free, pointer.value, block);
    again := pointer;
  }

  lemma SnocInjective<T>(a: seq<T>, b: seq<T>, x: T, y: T)
    requires a + [x] == b + [y]
    ensures a == b && x == y
  {
    assert |a + [x]| == |b + [y]|;
    assert (a + [x])[|a|] == x && (b + [y])[|b|] == y;
    assert a == (a + [x])[..|a|] && b == (b + [y])[..|b|];
  }
}
