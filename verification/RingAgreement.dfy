/** The fast ring and the plain ring, driven by the same calls. */
module RingAgreement {
  import opened Foundations
  import opened NumericOps
  import opened DropOldest
  import FastCircularBuffer
  import CircularBuffer

  /** The fast ring answers any run of calls, of any length, as the reference queue does. */
  method DriveFast(ring: FastCircularBuffer.FastRing, ops: seq<Op>) returns (replies: seq<Reply>)
    requires ring.Valid()
    modifies ring, ring.buffer
    ensures ring.Valid() && ring.Capacity() == old(ring.Capacity())
    ensures ring.contents == RunAfter(ring.Capacity(), old(ring.contents), ops)
    ensures replies == Replies(ring.Capacity(), old(ring.contents), ops)
  {
    replies := [];
    for n := 0 to |ops|
      invariant ring.Valid() && ring.Capacity() == old(ring.Capacity()) && ring.buffer == old(ring.buffer)
      invariant ring.contents == RunAfter(ring.Capacity(), old(ring.contents), ops[..n])
      invariant replies == Replies(ring.Capacity(), old(ring.contents), ops[..n])
    {
      assert ops[..n + 1][..n] == ops[..n];
      var reply: Reply;
      match ops[n] {
        case PushByte(b) =>
          var code := ring.Push(b);
          reply := Pushed(code);
        case PopByte =>
          var code, byte := ring.Pop();
          reply := Popped(code, byte);
        case GetCount =>
          reply := Counted(ring.Count());
      }
      replies := replies + [reply];
    }
    assert ops[..|ops|] == ops;
  }

  /** So does the plain ring. */
  method DrivePlain(ring: CircularBuffer.Ring, ops: seq<Op>) returns (replies: seq<Reply>)
    requires ring.Valid()
    modifies ring, ring.buffer
    ensures ring.Valid() && ring.maxSize == old(ring.maxSize)
    ensures ring.contents == RunAfter(ring.maxSize, old(ring.contents), ops)
    ensures replies == Replies(ring.maxSize, old(ring.contents), ops)
  {
    replies := [];
    for n := 0 to |ops|
      invariant ring.Valid() && ring.maxSize == old(ring.maxSize) && ring.buffer == old(ring.buffer)
      invariant ring.contents == RunAfter(ring.maxSize, old(ring.contents), ops[..n])
      invariant replies == Replies(ring.maxSize, old(ring.contents), ops[..n])
    {
      assert ops[..n + 1][..n] == ops[..n];
      var reply: Reply;
      match ops[n] {
        case PushByte(b) =>
          var code := ring.Push(b);
          reply := Pushed(code);
        case PopByte =>
          var code, byte := ring.Pop();
          reply := Popped(code, byte);
        case GetCount =>
          reply := Counted(ring.Count());
      }
      replies := replies + [reply];
    }
    assert ops[..|ops|] == ops;
  }

  /** On every capacity the fast form accepts, the two return identical codes, bytes and
      counts for every sequence of calls. */
  method DriveBoth(capacity: nat, ops: seq<Op>) returns (fast: seq<Reply>, plain: seq<Reply>)
    requires IsSize(capacity) && capacity >= 2 && IsPowerOfTwo(capacity)
    ensures fast == plain == Replies(capacity, [], ops)
  {
    var fastBuffer, plainBuffer := new Byte[capacity], new Byte[capacity];
    var fastRing := new FastCircularBuffer.FastRing(fastBuffer);
    var plainRing := new CircularBuffer.Ring(plainBuffer);
    var _ := fastRing.Init(fastBuffer, capacity);
    var _ := plainRing.Init(plainBuffer, capacity);
    fast := DriveFast(fastRing, ops);
    plain := DrivePlain(plainRing, ops);
  }
}
