/** The ring whose indices run freely over `size_t` and are masked at each access. */
module FastCircularBuffer {
  import opened Foundations
  import opened NumericOps
  import opened DropOldest

  class FastRing {
    var buffer: array<Byte>
    var readIndex: nat
    var writeIndex: nat
    var sizeMask: nat
    // The base-2 logarithm of the capacity, the read index before wrapping, and the bytes
    // the ring stands for.
    ghost var exponent: nat
    ghost var head: nat
    ghost var contents: seq<Byte>

    ghost predicate Valid()
      reads this, buffer
    {
      && IndicesValid()
      && (sizeMask > 0 ==> Holds(buffer[..], head, contents, sizeMask + 1))
    }

    ghost predicate IndicesValid()
      reads this
    {
      && readIndex == Wrap(head) && writeIndex == Wrap(head + |contents|)
      && |contents| <= Capacity()
      && (sizeMask > 0 ==>
            exponent < SIZE_BITS && sizeMask + 1 == Pow2(exponent) && 2 * (sizeMask + 1) <= Modulus())
    }

    ghost function Capacity(): nat
      reads this
    {
      if sizeMask == 0 then 0 else sizeMask + 1
    }

    /** A deinitialised ring. */
    constructor (buffer: array<Byte>)
      ensures Valid() && Capacity() == 0 && contents == [] && this.buffer == buffer
    {
      this.buffer := buffer;
      readIndex, writeIndex, sizeMask := 0, 0, 0;
      exponent, head, contents := 0, 0, [];
    }

    method Init(buffer: array<Byte>, bufferSize: nat) returns (code: ErrorCode)
      requires IsSize(bufferSize) && bufferSize <= buffer.Length
      modifies this
      ensures code == if bufferSize >= 2 && IsPowerOfTwo(bufferSize) then ErrNone else ErrInvalidArg
      ensures code != ErrNone ==> unchanged(this)
      ensures code == ErrNone ==>
                Valid() && this.buffer == buffer && Capacity() == bufferSize && contents == []
    {
      IsPower2Iff(bufferSize);
      if bufferSize < 2 { return ErrInvalidArg; }
      if !IsPower2(bufferSize) { return ErrInvalidArg; }
      this.buffer := buffer;
      sizeMask := bufferSize - 1;
      readIndex := 0;
      writeIndex := 0;
      exponent := ExponentFits(bufferSize);
      head, contents := 0, [];
      return ErrNone;
    }

    method Deinit()
      modifies this
      ensures Valid() && Capacity() == 0 && contents == []
    {
      sizeMask := 0;
      readIndex := 0;
      writeIndex := 0;
      head, contents := 0, [];
    }

    function Count(): (n: nat)
      requires IndicesValid()
      reads this
      ensures n == |contents|
    {
      WrapDistance(head, head + |contents|);
      WrapSub(writeIndex, readIndex)
    }

    method Push(byte: Byte) returns (code: ErrorCode)
      requires Valid()
      modifies this`readIndex, this`writeIndex, this`head, this`contents, buffer
      ensures Valid()
      ensures Pushed(code) == Answer(Capacity(), old(contents), PushByte(byte))
      ensures code == ErrNone <==> contents != [] && contents[|contents| - 1] == byte
      ensures code != ErrNone ==> code == ErrNoMem && Capacity() == 0
      ensures contents == After(Capacity(), old(contents), PushByte(byte))
    {
      hide Mod, Pow2, BitAnd, Wrap, WrapSub, Modulus;
      if sizeMask == 0 { return ErrNoMem; }
      HoldsPush(buffer[..], head, contents, sizeMask + 1, byte);
      Store(byte);
      AdvanceWrite(byte);
      return ErrNone;
    }

    method Store(byte: Byte)
      requires Valid() && sizeMask > 0
      modifies buffer
      ensures buffer[..] == old(buffer[..])[Mod(head + |contents|, sizeMask + 1) := byte]
    {
      hide Mod, Pow2, BitAnd, Wrap, WrapSub, Modulus;
      MaskOfWrapped(head + |contents|, exponent);
      buffer[BitAnd(writeIndex, sizeMask)] := byte;
    }

    /** Publishes the stored byte, first giving up the oldest one if the ring is full. */
    method AdvanceWrite(byte: Byte)
      requires IndicesValid() && sizeMask > 0
      modifies this`readIndex, this`writeIndex, this`head, this`contents
      ensures IndicesValid()
      ensures contents == After(Capacity(), old(contents), PushByte(byte))
      ensures head == FirstAfterPush(Capacity(), old(head), |old(contents)|)
    {
      hide Mod, Pow2, BitAnd, Wrap, WrapSub, Modulus, After, Newest;
      LengthAfterPush(Capacity(), head, contents, byte);
      ghost var tail := head + |contents|;
      if Count() > sizeMask {
        WrapBack(tail, sizeMask);
        readIndex := WrapSub(writeIndex, sizeMask);
        head := head + 1;
      }
      WrapStep(tail, 1);
      writeIndex := Wrap(writeIndex + 1);
      contents := After(Capacity(), contents, PushByte(byte));
      assert head + |contents| == tail + 1;
    }

    method Pop() returns (code: ErrorCode, byte: Option<Byte>)
      requires Valid()
      modifies this`readIndex, this`head, this`contents
      ensures Valid()
      ensures Popped(code, byte) == Answer(Capacity(), old(contents), PopByte)
      ensures code == ErrNone <==> old(contents) != []
      ensures code == ErrNone ==> byte.Some? && [byte.value] + contents == old(contents)
      ensures code != ErrNone ==> code == ErrEmpty && byte == None
      ensures contents == After(Capacity(), old(contents), PopByte)
    {
      hide Mod, Pow2, BitAnd, Wrap, WrapSub, Modulus;
      if Count() == 0 { return ErrEmpty, None; }
      HoldsTail(buffer[..], head, contents, sizeMask + 1);
      MaskOfWrapped(head, exponent);
      byte := Some(buffer[BitAnd(readIndex, sizeMask)]);
      AdvanceRead();
      return ErrNone, byte;
    }

    method AdvanceRead()
      requires IndicesValid() && contents != []
      modifies this`readIndex, this`head, this`contents
      ensures IndicesValid() && head == old(head) + 1 && contents == old(contents)[1..]
    {
      hide Mod, Pow2, BitAnd, Wrap, WrapSub, Modulus;
      WrapStep(head, 1);
      readIndex := Wrap(readIndex + 1);
      head, contents := head + 1, contents[1..];
    }
  }
}
