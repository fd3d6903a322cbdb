/** The ring that keeps both indices below its size and a flag to tell empty from full. */
module CircularBuffer {
  import opened Foundations
  import opened DropOldest

  // ----- the index fields, store by store -----

  datatype Indices = Indices(read: nat, write: nat, isEmpty: bool)

  function CountOf(i: Indices, size: nat): nat
    requires i.read <= size
  {
    if i.write > i.read then i.write - i.read
    else if i.write < i.read then size - i.read + i.write
    else if i.isEmpty then 0 else size
  }

  /** All index stores of a push. */
  function PushStores(i: Indices, size: nat): Indices
    requires size > 0
  {
    var read := if i.write == i.read && !i.isEmpty then Mod(i.read + 1, size) else i.read;
    Indices(read, Mod(i.write + 1, size), false)
  }

  /** The two index stores of a pop, in order. */
  function PopStoresRead(i: Indices, size: nat): Indices
    requires size > 0
  {
    i.(read := Mod(i.read + 1, size))
  }

  function PopStoresFlag(i: Indices): Indices {
    i.(isEmpty := i.read == i.write)
  }

  /** A whole pop: no store if it finds the ring empty. */
  function PopStores(i: Indices, size: nat): Indices
    requires size > 0 && i.read <= size
  {
    if CountOf(i, size) == 0 then i else PopStoresFlag(PopStoresRead(i, size))
  }

  /** A ring's bytes and index fields. */
  datatype Cells = Cells(bytes: seq<Byte>, at: Indices)

  predicate Proper(c: Cells, size: nat) {
    && 0 < size <= |c.bytes| && c.at.read < size && c.at.write < size
    && (c.at.isEmpty ==> c.at.read == c.at.write)
  }

  /** What a pop leaves and the byte it returns, none if it answers EMPTY. */
  datatype Outcome = Outcome(cells: Cells, taken: Option<Byte>)

  function PushCall(c: Cells, b: Byte, size: nat): (r: Cells)
    requires Proper(c, size)
    ensures Proper(r, size)
  {
    Cells(c.bytes[c.at.write := b], PushStores(c.at, size))
  }

  function PopCall(c: Cells, size: nat): (r: Outcome)
    requires Proper(c, size)
    ensures Proper(r.cells, size)
  {
    Outcome(c.(at := PopStores(c.at, size)),
            if CountOf(c.at, size) == 0 then None else Some(c.bytes[c.at.read]))
  }

  class Ring {
    var buffer: array<Byte>
    var maxSize: nat
    var readIndex: nat
    var writeIndex: nat
    var isEmpty: bool
    // The read index before it is reduced, and the bytes the ring stands for.
    ghost var head: nat
    ghost var contents: seq<Byte>

    ghost predicate Valid()
      reads this, buffer
    {
      IndicesValid() && (maxSize > 0 ==> Holds(buffer[..], head, contents, maxSize))
    }

    ghost predicate IndicesValid()
      reads this
    {
      && |contents| <= maxSize
      && (isEmpty <==> contents == [])
      && if maxSize == 0 then readIndex == writeIndex == 0
         else readIndex == Mod(head, maxSize) && writeIndex == Mod(head + |contents|, maxSize)
    }

    ghost function Fields(): Indices
      reads this
    {
      Indices(readIndex, writeIndex, isEmpty)
    }

    ghost function Memory(): Cells
      reads this, buffer
    {
      Cells(buffer[..], Fields())
    }

    /** A deinitialised ring. */
    constructor (buffer: array<Byte>)
      ensures Valid() && maxSize == 0 && contents == [] && this.buffer == buffer
    {
      this.buffer := buffer;
      maxSize, readIndex, writeIndex, isEmpty := 0, 0, 0, true;
      head, contents := 0, [];
    }

    method Init(buffer: array<Byte>, bufferSize: nat) returns (code: ErrorCode)
      requires bufferSize <= buffer.Length
      modifies this
      ensures code == if bufferSize == 0 then ErrInvalidArg else ErrNone
      ensures code != ErrNone ==> unchanged(this)
      ensures code == ErrNone ==>
                Valid() && this.buffer == buffer && maxSize == bufferSize && contents == []
    {
      if bufferSize == 0 { return ErrInvalidArg; }
      readIndex := 0;
      writeIndex := 0;
      isEmpty := true;
      this.buffer := buffer;
      maxSize := bufferSize;
      head, contents := 0, [];
      return ErrNone;
    }

    method Deinit()
      modifies this
      ensures Valid() && maxSize == 0 && contents == []
    {
      maxSize := 0;
      readIndex := 0;
      writeIndex := 0;
      isEmpty := true;
      head, contents := 0, [];
    }

    function Count(): (n: nat)
      requires IndicesValid()
      reads this
      ensures n == |contents| == CountOf(Fields(), maxSize)
    {
      if maxSize > 0 then
        IndexDistance(head, |contents|, maxSize);
        if writeIndex > readIndex then writeIndex - readIndex
        else if writeIndex < readIndex then maxSize - readIndex + writeIndex
        else if isEmpty then 0 else maxSize
      else 0
    }

    method Push(byte: Byte) returns (code: ErrorCode)
      requires Valid()
      modifies this`readIndex, this`writeIndex, this`isEmpty, this`head, this`contents, buffer
      ensures Valid()
      ensures Pushed(code) == Answer(maxSize, old(contents), PushByte(byte))
      ensures code == ErrNone <==> contents != [] && contents[|contents| - 1] == byte
      ensures code != ErrNone ==> code == ErrNoMem && maxSize == 0
      ensures contents == After(maxSize, old(contents), PushByte(byte))
      ensures maxSize > 0 ==>
                Proper(old(Memory()), maxSize) && Memory() == PushCall(old(Memory()), byte, maxSize)
    {
      hide Mod;
      if maxSize == 0 { return ErrNoMem; }
      HoldsPush(buffer[..], head, contents, maxSize, byte);
      buffer[writeIndex] := byte;
      assert buffer[..] == old(buffer[..])[Mod(head + |contents|, maxSize) := byte];
      AdvanceWrite(byte);
      return ErrNone;
    }

    /** Publishes the stored byte, first giving up the oldest one if the ring is full. */
    method AdvanceWrite(byte: Byte)
      requires IndicesValid() && maxSize > 0
      modifies this`readIndex, this`writeIndex, this`isEmpty, this`head, this`contents
      ensures IndicesValid()
      ensures contents == After(maxSize, old(contents), PushByte(byte))
      ensures head == FirstAfterPush(maxSize, old(head), |old(contents)|)
      ensures Fields() == PushStores(old(Fields()), maxSize)
    {
      hide Mod, After, Newest, FirstAfterPush;
      LengthAfterPush(maxSize, head, contents, byte);
      PushStoresTrack(head, |contents|, maxSize);
      if writeIndex == readIndex && !isEmpty {
        readIndex := Mod(readIndex + 1, maxSize);
      }
      writeIndex := Mod(writeIndex + 1, maxSize);
      isEmpty := false;
      head := FirstAfterPush(maxSize, head, |contents|);
      contents := After(maxSize, contents, PushByte(byte));
    }

    method Pop() returns (code: ErrorCode, byte: Option<Byte>)
      requires Valid()
      modifies this`readIndex, this`isEmpty, this`head, this`contents
      ensures Valid()
      ensures Popped(code, byte) == Answer(maxSize, old(contents), PopByte)
      ensures code == ErrNone <==> old(contents) != []
      ensures code == ErrNone ==> byte.Some? && [byte.value] + contents == old(contents)
      ensures code != ErrNone ==> code == ErrEmpty && byte == None
      ensures contents == After(maxSize, old(contents), PopByte)
      ensures maxSize > 0 ==>
                Proper(old(Memory()), maxSize) && Outcome(Memory(), byte) == PopCall(old(Memory()), maxSize)
    {
      hide Mod;
      if Count() == 0 { return ErrEmpty, None; }
      HoldsTail(buffer[..], head, contents, maxSize);
      byte := Some(buffer[readIndex]);
      AdvanceRead();
      return ErrNone, byte;
    }

    method AdvanceRead()
      requires IndicesValid() && contents != []
      modifies this`readIndex, this`isEmpty, this`head, this`contents
      ensures IndicesValid() && head == old(head) + 1 && contents == old(contents)[1..]
      ensures Fields() == PopStoresFlag(PopStoresRead(old(Fields()), maxSize))
    {
      hide Mod;
      ModAbsorbs(head, 1, maxSize);
      IndexDistance(head + 1, |contents| - 1, maxSize);
      readIndex := Mod(readIndex + 1, maxSize);
      isEmpty := readIndex == writeIndex;
      head, contents := head + 1, contents[1..];
    }
  }

  /** The reduced indices tell the distance, up to a full circle. */
  lemma IndexDistance(head: nat, n: nat, size: nat)
    requires n <= size && size > 0
    ensures var read, write := Mod(head, size), Mod(head + n, size);
            && (write > read ==> n == write - read)
            && (write < read ==> n == size - read + write)
            && (write == read <==> n == 0 || n == size)
  {
    ModAbsorbs(head, n, size);
  }

  /** The index stores of a push move a window of `n` bytes from `head` on. */
  lemma PushStoresTrack(head: nat, n: nat, size: nat)
    requires n <= size && size > 0
    ensures PushStores(Indices(Mod(head, size), Mod(head + n, size), n == 0), size)
            == Indices(Mod(FirstAfterPush(size, head, n), size), Mod(head + n + 1, size), false)
  {
    hide Mod;
    IndexDistance(head, n, size);
    ModAbsorbs(head, 1, size);
    ModAbsorbs(head + n, 1, size);
  }

  // ----- overlapping calls -----

  lemma StepAround(x: nat, size: nat)
    requires x < size
    ensures Mod(x + 1, size) == if x + 1 == size then 0 else x + 1
  {
    if x + 1 == size {
      ModPeriodic(0, size);
    }
  }

  function PopThenPush(c: Cells, b: Byte, size: nat): Outcome
    requires Proper(c, size)
  {
    var popped := PopCall(c, size);
    Outcome(PushCall(popped.cells, b, size), popped.taken)
  }

  function PushThenPop(c: Cells, b: Byte, size: nat): Outcome
    requires Proper(c, size)
  {
    PopCall(PushCall(c, b, size), size)
  }

  /** The calls end as if one had run after the other. */
  predicate AsInSomeOrder(o: Outcome, c: Cells, b: Byte, size: nat)
    requires Proper(c, size)
  {
    o == PopThenPush(c, b, size) || o == PushThenPop(c, b, size)
  }

  /** A push that runs between the read-index store and the flag store of a pop, before or
      after the pop has compared the indices for the flag; it has its byte already. */
  function PushInsidePop(c: Cells, b: Byte, size: nat, compared: bool): Outcome
    requires Proper(c, size) && CountOf(c.at, size) >= 1
  {
    var half := Cells(c.bytes, PopStoresRead(c.at, size));
    var pushed := Cells(c.bytes[c.at.write := b], PushStores(half.at, size));
    var flagged := PopStoresFlag(if compared then half.at else pushed.at);
    Outcome(pushed.(at := pushed.at.(isEmpty := flagged.isEmpty)), Some(c.bytes[c.at.read]))
  }

  /** Such a push is safe exactly when the ring, before the pop, holds more than one byte and
      is not full or the comparison is over, or when it can hold one byte only and the very
      byte is pushed again. Otherwise the ring ends empty: a push into a ring of one byte takes
      it for full and its own byte is lost; a push that fills the ring again is taken by the
      pop's comparison for one that emptied it, and every byte is lost. */
  lemma PushInsidePopIsSafeIff(c: Cells, b: Byte, size: nat, compared: bool)
    requires Proper(c, size) && CountOf(c.at, size) >= 1
    ensures var n, o := CountOf(c.at, size), PushInsidePop(c, b, size, compared);
            var safe := n > 1 && (compared || n < size);
            && (AsInSomeOrder(o, c, b, size) <==> safe || (size == 1 && b == c.bytes[c.at.read]))
            && CountOf(PopThenPush(c, b, size).cells.at, size) == n
            && CountOf(o.cells.at, size) == if safe then n else 0
  {
    hide PushInsidePop, AsInSomeOrder, PopThenPush;
    PushInsidePopCounts(c, b, size, compared);
    PushInsidePopOrder(c, b, size, compared);
  }

  lemma PushInsidePopOrder(c: Cells, b: Byte, size: nat, compared: bool)
    requires Proper(c, size) && CountOf(c.at, size) >= 1
    ensures var n := CountOf(c.at, size);
            AsInSomeOrder(PushInsidePop(c, b, size, compared), c, b, size) <==>
              (n > 1 && (compared || n < size)) || (size == 1 && b == c.bytes[c.at.read])
  {
    hide Mod;
    StepAround(c.at.read, size);
    StepAround(c.at.write, size);
    StepAround(Mod(c.at.read + 1, size), size);
  }

  lemma PushInsidePopCounts(c: Cells, b: Byte, size: nat, compared: bool)
    requires Proper(c, size) && CountOf(c.at, size) >= 1
    ensures var n := CountOf(c.at, size);
            && CountOf(PopThenPush(c, b, size).cells.at, size) == n
            && CountOf(PushInsidePop(c, b, size, compared).cells.at, size)
               == if n > 1 && (compared || n < size) then n else 0
  {
    hide Mod;
    StepAround(c.at.read, size);
    StepAround(c.at.write, size);
    StepAround(Mod(c.at.read + 1, size), size);
  }

  /** A push that runs inside the count of a pop, after the write index was found above the
      read index and before the two are loaded again and subtracted. */
  function PushInsideCount(c: Cells, b: Byte, size: nat): Outcome
    requires Proper(c, size) && c.at.write > c.at.read
  {
    var pushed := PushCall(c, b, size);
    if pushed.at.write == pushed.at.read then Outcome(pushed, None)
    else Outcome(pushed.(at := PopStoresFlag(PopStoresRead(pushed.at, size))), Some(c.bytes[c.at.read]))
  }

  /** Such a push is safe unless it fills the ring by bringing the write index back to 0: the
      difference is then 0, and the pop answers EMPTY on a full ring. */
  lemma PushInsideCountIsSafeIff(c: Cells, b: Byte, size: nat)
    requires Proper(c, size) && c.at.write > c.at.read
    ensures var o := PushInsideCount(c, b, size);
            var safe := !(c.at.read == 0 && c.at.write == size - 1);
            && (AsInSomeOrder(o, c, b, size) <==> safe)
            && (!safe ==> o.taken == None && CountOf(o.cells.at, size) == size)
  {
    hide Mod;
    StepAround(c.at.read, size);
    StepAround(c.at.write, size);
  }

  /** A pop that runs between the write-index store and the flag store of a push. */
  function PopInsidePush(c: Cells, b: Byte, size: nat): Outcome
    requires Proper(c, size)
  {
    var pushed := PushCall(c, b, size);
    var at := pushed.at.(isEmpty := c.at.isEmpty);
    var taken := if CountOf(at, size) == 0 then None else Some(pushed.bytes[at.read]);
    Outcome(Cells(pushed.bytes, PopStores(at, size).(isEmpty := false)), taken)
  }

  /** Such a pop is safe exactly when the ring holds a byte already and can hold two, or can
      hold one only and is empty, where it answers EMPTY as if it had come first, or holds
      the very byte pushed. Otherwise the push's flag store takes a ring just emptied for a
      full one. */
  lemma PopInsidePushIsSafeIff(c: Cells, b: Byte, size: nat)
    requires Proper(c, size)
    ensures var safe :=
              if size >= 2 then CountOf(c.at, size) >= 1
              else CountOf(c.at, size) == 0 || b == c.bytes[c.at.read];
            && (AsInSomeOrder(PopInsidePush(c, b, size), c, b, size) <==> safe)
            && (!safe ==>
                  && PopInsidePush(c, b, size).taken == Some(b)
                  && CountOf(PushThenPop(c, b, size).cells.at, size) == 0
                  && CountOf(PopInsidePush(c, b, size).cells.at, size) == size)
  {
    hide Mod;
    StepAround(c.at.read, size);
    StepAround(c.at.write, size);
    StepAround(Mod(c.at.read + 1, size), size);
  }
}
