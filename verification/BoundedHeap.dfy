/** The bounded heap itself: an array of caller-owned items, updated in place. */
module BoundedHeap {
  import opened Foundations
  import opened HeapOrder
  import HeapRuns

  class Heap<T> {
    var storage: array<T>
    var compare: Compare<T>
    var itemsInHeap: nat
    var heapMaxSize: nat

    ghost predicate Valid()
      reads this
    {
      itemsInHeap <= heapMaxSize <= storage.Length
    }

    ghost function Live(): seq<T>
      requires Valid()
      reads this, storage
    {
      storage[..itemsInHeap]
    }

    /** An uninitialised heap over the caller's storage refuses every operation. */
    constructor (storage: array<T>, compare: Compare<T>)
      ensures Valid() && heapMaxSize == 0 && this.storage == storage && this.compare == compare
    {
      this.storage := storage;
      this.compare := compare;
      itemsInHeap, heapMaxSize := 0, 0;
    }

    method Init(storage: array<T>, elementCount: nat, compare: Compare<T>) returns (code: ErrorCode)
      requires elementCount <= storage.Length
      modifies this
      ensures code == if elementCount == 0 then ErrInvalidArg else ErrNone
      ensures code != ErrNone ==> unchanged(this)
      ensures code == ErrNone ==>
                && Valid() && Live() == [] && heapMaxSize == elementCount
                && this.storage == storage && this.compare == compare
    {
      if elementCount == 0 { return ErrInvalidArg; }
      this.storage := storage;
      this.compare := compare;
      heapMaxSize := elementCount;
      itemsInHeap := 0;
      return ErrNone;
    }

    method Deinit()
      requires Valid()
      modifies this
      ensures Valid() && Live() == [] && heapMaxSize == 0
    {
      itemsInHeap := 0;
      heapMaxSize := 0;
    }

    method Peek() returns (code: ErrorCode, item: Option<T>)
      requires Valid()
      ensures code == if Live() == [] then ErrEmpty else ErrNone
      ensures item == if Live() == [] then None else Some(Live()[0])
    {
      if itemsInHeap == 0 { return ErrEmpty, None; }
      return ErrNone, Some(storage[0]);
    }

    function Remaining(): (n: nat)
      requires Valid()
      reads this, storage
      ensures n + |Live()| == heapMaxSize
    {
      heapMaxSize - itemsInHeap
    }

    method SwapValues(i: nat, j: nat)
      requires Valid() && i < storage.Length && j < storage.Length
      modifies storage
      ensures storage[..] == Swap(old(storage[..]), i, j)
      ensures i < itemsInHeap && j < itemsInHeap ==>
                && Live() == Swap(old(Live()), i, j)
                && storage[itemsInHeap..] == old(storage[itemsInHeap..])
    {
      storage[i], storage[j] := storage[j], storage[i];
    }

    /** The popped root moves to the first unused slot; the slots behind it stay put. */
    method Pop() returns (code: ErrorCode, item: Option<T>)
      requires Valid()
      modifies this`itemsInHeap, storage
      ensures Valid()
      ensures old(Live()) == [] ==>
                code == ErrEmpty && item == None && Live() == [] && storage[..] == old(storage[..])
      ensures old(Live()) != [] ==>
                && code == ErrNone && item == Some(old(Live())[0])
                && Live() == PopRest(compare, old(Live()))
                && storage[itemsInHeap] == old(Live())[0]
                && storage[itemsInHeap + 1..] == old(storage[itemsInHeap..])
    {
      if itemsInHeap == 0 { return ErrEmpty, None; }
      item := Some(storage[0]);
      itemsInHeap := itemsInHeap - 1;
      SwapValues(0, itemsInHeap);

      ghost var live := old(Live());
      assert itemsInHeap > 0 ==> storage[..itemsInHeap] == live[..itemsInHeap][0 := live[itemsInHeap]];
      Sink();
      return ErrNone, item;
    }

    method Sink()
      requires Valid() && itemsInHeap < storage.Length
      modifies storage
      ensures Live() == if itemsInHeap == 0 then [] else SiftDown(compare, old(Live()), 0)
      ensures storage[itemsInHeap..] == old(storage[itemsInHeap..])
    {
      var parentIdx: nat := 0;
      while true
        invariant parentIdx < itemsInHeap || itemsInHeap == 0
        invariant itemsInHeap > 0 ==> SiftDown(compare, Live(), parentIdx) == SiftDown(compare, old(Live()), 0)
        invariant storage[itemsInHeap..] == old(storage[itemsInHeap..])
        decreases itemsInHeap - parentIdx
      {
        var left, right := 2 * parentIdx + 1, 2 * parentIdx + 2;
        if left >= itemsInHeap || right >= itemsInHeap { break; }
        var next := SwapArbitration(parentIdx);
        if next == parentIdx { break; }
        SwapValues(parentIdx, next);
        parentIdx := next;
      }
    }

    /** Which of a parent and its two children belongs at the parent. */
    method SwapArbitration(parentIdx: nat) returns (next: nat)
      requires Valid() && 2 * parentIdx + 2 < itemsInHeap
      ensures next == Arbitrate(compare, Live(), parentIdx)
    {
      var left, right := 2 * parentIdx + 1, 2 * parentIdx + 2;
      var leftSwap := compare(storage[parentIdx], storage[left]);
      var rightSwap := compare(storage[parentIdx], storage[right]);
      if leftSwap && rightSwap {
        var swapWithRight := compare(storage[left], storage[right]);
        leftSwap := !swapWithRight;
        rightSwap := swapWithRight;
      }
      next := if leftSwap then left else if rightSwap then right else parentIdx;
    }

    method Push(item: T) returns (code: ErrorCode)
      requires Valid()
      modifies this`itemsInHeap, storage
      ensures Valid()
      ensures |old(Live())| == heapMaxSize ==>
                code == ErrNoMem && Live() == old(Live()) && storage[..] == old(storage[..])
      ensures |old(Live())| < heapMaxSize ==>
                && code == ErrNone
                && Live() == HeapOrder.Push(compare, old(Live()), item)
                && storage[itemsInHeap..] == old(storage[itemsInHeap + 1..])
    {
      if Remaining() == 0 { return ErrNoMem; }
      var childIdx := itemsInHeap;
      storage[childIdx] := item;
      itemsInHeap := itemsInHeap + 1;

      assert Live() == old(Live()) + [item];
      Bubble(childIdx);
      return ErrNone;
    }

    method Bubble(start: nat)
      requires Valid() && start < itemsInHeap
      modifies storage
      ensures Live() == SiftUp(compare, old(Live()), start)
      ensures storage[itemsInHeap..] == old(storage[itemsInHeap..])
    {
      var childIdx: nat := start;
      while childIdx != 0
        invariant childIdx < itemsInHeap
        invariant SiftUp(compare, Live(), childIdx) == SiftUp(compare, old(Live()), start)
        invariant storage[itemsInHeap..] == old(storage[itemsInHeap..])
        decreases childIdx
      {
        var parentIdx := (childIdx - 1) / 2;
        if !compare(storage[parentIdx], storage[childIdx]) { break; }
        SwapValues(parentIdx, childIdx);
        childIdx := parentIdx;
      }
    }
  }

  /** Pushes every item onto an empty heap with room for them. */
  method FillHeap<T>(heap: Heap<T>, items: seq<T>)
    requires heap.Valid() && heap.Live() == [] && |items| <= heap.heapMaxSize
    modifies heap`itemsInHeap, heap.storage
    ensures heap.Valid() && heap.Live() == HeapRuns.Fill(heap.compare, items)
  {
    hide HeapOrder.Push;
    for n := 0 to |items|
      invariant heap.Valid() && heap.Live() == HeapRuns.Fill(heap.compare, items[..n])
    {
      assert items[..n + 1][..n] == items[..n];
      var _ := heap.Push(items[n]);
    }
    assert items[..|items|] == items;
  }

  /** Pops a heap until it is empty. */
  method DrainHeap<T>(heap: Heap<T>) returns (out: seq<T>)
    requires heap.Valid()
    modifies heap`itemsInHeap, heap.storage
    ensures heap.Valid() && heap.Live() == []
    ensures out == HeapRuns.Drain(heap.compare, old(heap.Live()))
  {
    hide PopRest;
    out := [];
    while heap.itemsInHeap > 0
      invariant heap.Valid()
      invariant out + HeapRuns.Drain(heap.compare, heap.Live())
                == HeapRuns.Drain(heap.compare, old(heap.Live()))
      decreases heap.itemsInHeap
    {
      ghost var live := heap.Live();
      var _, item := heap.Pop();
      assert HeapRuns.Drain(heap.compare, live)
             == [item.value] + HeapRuns.Drain(heap.compare, heap.Live());
      out := out + [item.value];
    }
  }

  /** n pushes into an empty heap, then n pops: a permutation of the items, in rank order up
      to the last two. */
  method FillThenDrainHeap<T(!new)>(heap: Heap<T>, items: seq<T>) returns (out: seq<T>)
    requires heap.Valid() && heap.Live() == [] && |items| <= heap.heapMaxSize
    requires StrictWeakOrder(heap.compare)
    modifies heap`itemsInHeap, heap.storage
    ensures heap.Valid() && heap.Live() == []
    ensures multiset(out) == multiset(items) && HeapRuns.Ranked(heap.compare, out, |items| - 2)
  {
    FillHeap(heap, items);
    out := DrainHeap(heap);
    HeapRuns.FillThenDrain(heap.compare, items);
  }

  /** Any run of pushes and pops, refused ones included, is the reference run; nothing is
      lost or invented. */
  method DriveHeap<T>(heap: Heap<T>, ops: seq<HeapRuns.Op<T>>) returns (popped: seq<T>)
    requires heap.Valid()
    modifies heap`itemsInHeap, heap.storage
    ensures heap.Valid()
    ensures heap.Live() == HeapRuns.Run(heap.compare, heap.heapMaxSize, old(heap.Live()), ops)
    ensures multiset(popped) == HeapRuns.Returned(heap.compare, heap.heapMaxSize, old(heap.Live()), ops)
    ensures multiset(heap.Live()) + multiset(popped)
            == multiset(old(heap.Live())) + HeapRuns.Accepted(heap.compare, heap.heapMaxSize, old(heap.Live()), ops)
  {
    hide PopRest, HeapOrder.Push;
    HeapRuns.RunConserves(heap.compare, heap.heapMaxSize, heap.Live(), ops);
    popped := [];
    ghost var start := heap.Live();
    for n := 0 to |ops|
      invariant heap.Valid()
      invariant HeapRuns.Run(heap.compare, heap.heapMaxSize, heap.Live(), ops[n..])
                == HeapRuns.Run(heap.compare, heap.heapMaxSize, start, ops)
      invariant multiset(popped) + HeapRuns.Returned(heap.compare, heap.heapMaxSize, heap.Live(), ops[n..])
                == HeapRuns.Returned(heap.compare, heap.heapMaxSize, start, ops)
    {
      ghost var rest := ops[n..];
      assert rest[0] == ops[n] && rest[1..] == ops[n + 1..];
      match ops[n] {
        case DoPush(x) =>
          var _ := heap.Push(x);
        case DoPop =>
          var _, item := heap.Pop();
          if item.Some? {
            popped := popped + [item.value];
          }
      }
    }
  }
}
