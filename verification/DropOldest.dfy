/** The reference both ring buffers refine: a bounded queue that drops its oldest byte when
    a push finds it full. Also the cyclic windows through which arrays represent it. */
module DropOldest {
  import opened Foundations

  function Newest(s: seq<Byte>, n: nat): seq<Byte> {
    if |s| <= n then s else s[|s| - n..]
  }

  datatype Op = PushByte(byte: Byte) | PopByte | GetCount

  datatype Reply = Pushed(code: ErrorCode) | Popped(code: ErrorCode, byte: Option<Byte>) | Counted(count: nat)

  /** Capacity 0 is the deinitialised buffer. */
  function After(capacity: nat, items: seq<Byte>, op: Op): seq<Byte> {
    match op
    case PushByte(b) => Newest(items + [b], capacity)
    case PopByte => if items == [] then [] else items[1..]
    case GetCount => items
  }

  function Answer(capacity: nat, items: seq<Byte>, op: Op): Reply {
    match op
    case PushByte(b) => Pushed(if capacity == 0 then ErrNoMem else ErrNone)
    case PopByte => if items == [] then Popped(ErrEmpty, None) else Popped(ErrNone, Some(items[0]))
    case GetCount => Counted(|items|)
  }

  function RunAfter(capacity: nat, items: seq<Byte>, ops: seq<Op>): seq<Byte> {
    if ops == [] then items
    else After(capacity, RunAfter(capacity, items, ops[..|ops| - 1]), ops[|ops| - 1])
  }

  function Replies(capacity: nat, items: seq<Byte>, ops: seq<Op>): (r: seq<Reply>)
    ensures |r| == |ops|
  {
    if ops == [] then []
    else
      var before := ops[..|ops| - 1];
      Replies(capacity, items, before)
      + [Answer(capacity, RunAfter(capacity, items, before), ops[|ops| - 1])]
  }

  /** Each reply of a run in terms of what the queue then holds: a push succeeds whenever there
      is any capacity, a pop takes the oldest byte or says EMPTY, a count tells how many. */
  lemma {:induction false} RepliesExplained(capacity: nat, items: seq<Byte>, ops: seq<Op>, i: nat)
    requires i < |ops|
    ensures var held := RunAfter(capacity, items, ops[..i]);
            match Replies(capacity, items, ops)[i]
            case Pushed(code) =>
              && ops[i].PushByte?
              && (code == ErrNone <==> capacity > 0) && (code != ErrNone ==> code == ErrNoMem)
            case Popped(code, byte) =>
              && ops[i].PopByte?
              && (if held == [] then code == ErrEmpty && byte == None
                  else code == ErrNone && byte.Some? && byte.value == held[0])
            case Counted(n) => ops[i].GetCount? && n == |held|
  {
    if i < |ops| - 1 {
      RepliesExplained(capacity, items, ops[..|ops| - 1], i);
      assert ops[..|ops| - 1][..i] == ops[..i];
    }
  }

  function Pushes(bytes: seq<Byte>): (ops: seq<Op>)
    ensures |ops| == |bytes|
  {
    seq(|bytes|, i requires 0 <= i < |bytes| => PushByte(bytes[i]))
  }

  /** Any run of pushes leaves exactly the newest bytes, in the order they came. */
  lemma {:induction false} PushesKeepNewest(capacity: nat, items: seq<Byte>, bytes: seq<Byte>)
    requires |items| <= capacity
    ensures RunAfter(capacity, items, Pushes(bytes)) == Newest(items + bytes, capacity)
  {
    if bytes == [] {
      assert items + bytes == items;
    } else {
      var front, last := bytes[..|bytes| - 1], bytes[|bytes| - 1];
      PushesKeepNewest(capacity, items, front);
      assert Pushes(bytes)[..|bytes| - 1] == Pushes(front);
      assert items + bytes == items + front + [last];
    }
  }

  /** The bytes that the operations push, and the replies that are to pops. */
  function PushedBytes(ops: seq<Op>): seq<Byte> {
    if ops == [] then []
    else (if ops[0].PushByte? then [ops[0].byte] else []) + PushedBytes(ops[1..])
  }

  function PopReplies(replies: seq<Reply>): seq<Reply> {
    if replies == [] then []
    else (if replies[0].Popped? then [replies[0]] else []) + PopReplies(replies[1..])
  }

  /** A run taken from its first operation on. */
  lemma {:induction false} RunFromFirst(capacity: nat, items: seq<Byte>, op: Op, ops: seq<Op>)
    ensures var next := After(capacity, items, op);
            && RunAfter(capacity, items, [op] + ops) == RunAfter(capacity, next, ops)
            && Replies(capacity, items, [op] + ops) == [Answer(capacity, items, op)] + Replies(capacity, next, ops)
  {
    if ops == [] {
      assert [op] + ops == [op];
      assert [op][..0] == [];
      assert RunAfter(capacity, items, []) == items;
    } else {
      var front := ops[..|ops| - 1];
      RunFromFirst(capacity, items, op, front);
      assert ([op] + ops)[..|ops|] == [op] + front;
    }
  }

  lemma RunOfOne(capacity: nat, items: seq<Byte>, op: Op)
    ensures RunAfter(capacity, items, [op]) == After(capacity, items, op)
    ensures PopReplies(Replies(capacity, items, [op]))
            == if op.PopByte? then [Answer(capacity, items, op)] else []
  {
    RunFromFirst(capacity, items, op, []);
    assert [op] + [] == [op];
  }

  /** A run splits after its first operations, here at most one. */
  lemma RunSplits(capacity: nat, items: seq<Byte>, e: seq<Op>, ops: seq<Op>)
    requires |e| <= 1
    ensures var next := RunAfter(capacity, items, e);
            && RunAfter(capacity, items, e + ops) == RunAfter(capacity, next, ops)
            && PopReplies(Replies(capacity, items, e + ops))
               == PopReplies(Replies(capacity, items, e)) + PopReplies(Replies(capacity, next, ops))
  {
    hide After;
    if e == [] {
      assert e + ops == ops;
    } else {
      assert e == [e[0]];
      RunFromFirst(capacity, items, e[0], ops);
      RunOfOne(capacity, items, e[0]);
    }
  }

  lemma PushedBytesSplit(e: seq<Op>, ops: seq<Op>)
    requires |e| <= 1
    ensures PushedBytes(e + ops) == PushedBytes(e) + PushedBytes(ops)
  {
    assert if e == [] then e + ops == ops else (e + ops)[1..] == ops;
  }

  /** Telescoping of what is promised, given and left over. */
  lemma JoinAnswers<T>(before: seq<T>, reply: seq<T>, between: seq<T>, replies: seq<T>, after: seq<T>,
                       first: seq<T>, rest: seq<T>)
    requires reply + between == before + first && replies + after == between + rest
    ensures reply + replies + after == before + (first + rest)
  {
    assert reply + replies + after == reply + (between + rest);
    assert reply + (between + rest) == before + first + rest;
  }

  // ----- cyclic windows -----

  /** From index `start` on, taken modulo `capacity`, the buffer holds `items`. */
  ghost predicate Holds(buffer: seq<Byte>, start: nat, items: seq<Byte>, capacity: nat) {
    && 0 < capacity <= |buffer| && |items| <= capacity
    && forall i | 0 <= i < |items| :: items[i] == buffer[Mod(start + i, capacity)]
  }

  /** Indices less than `capacity` apart name different slots. */
  lemma SlotsDiffer(start: nat, i: nat, j: nat, capacity: nat)
    requires capacity > 0 && i < j < i + capacity
    ensures Mod(start + i, capacity) != Mod(start + j, capacity)
  {
    if Mod(start + i, capacity) == Mod(start + j, capacity) {
      ModDistance(start + i, start + j, capacity);
    }
  }

  /** Storing at the slot behind the items appends to them. */
  lemma HoldsStore(buffer: seq<Byte>, start: nat, items: seq<Byte>, capacity: nat, b: Byte)
    requires Holds(buffer, start, items, capacity) && |items| < capacity
    ensures Holds(buffer[Mod(start + |items|, capacity) := b], start, items + [b], capacity)
  {
    hide Mod;
    var stored, more := buffer[Mod(start + |items|, capacity) := b], items + [b];
    forall i | 0 <= i < |more|
      ensures more[i] == stored[Mod(start + i, capacity)]
    {
      if i < |items| {
        SlotsDiffer(start, i, |items|, capacity);
      }
    }
  }

  lemma HoldsTail(buffer: seq<Byte>, start: nat, items: seq<Byte>, capacity: nat)
    requires Holds(buffer, start, items, capacity) && items != []
    ensures items[0] == buffer[Mod(start, capacity)]
    ensures Holds(buffer, start + 1, items[1..], capacity)
  {
    hide Mod;
    forall i | 0 <= i < |items[1..]|
      ensures items[1..][i] == buffer[Mod(start + 1 + i, capacity)]
    {
      assert start + (i + 1) == start + 1 + i;
    }
    assert items[0] == buffer[Mod(start + 0, capacity)];
  }

  /** Storing behind a full window overwrites its oldest byte. */
  lemma HoldsOverwrite(buffer: seq<Byte>, start: nat, items: seq<Byte>, capacity: nat, b: Byte)
    requires Holds(buffer, start, items, capacity) && |items| == capacity
    ensures Holds(buffer[Mod(start + |items|, capacity) := b], start + 1, items[1..] + [b], capacity)
  {
    hide Mod;
    HoldsTail(buffer, start, items, capacity);
    HoldsStore(buffer, start + 1, items[1..], capacity, b);
    assert start + 1 + |items[1..]| == start + |items|;
  }

  /** Where the oldest byte is after a push. */
  function FirstAfterPush(capacity: nat, start: nat, count: nat): nat {
    if count == capacity then start + 1 else start
  }

  lemma LengthAfterPush(capacity: nat, start: nat, items: seq<Byte>, b: Byte)
    requires |items| <= capacity
    ensures var next := After(capacity, items, PushByte(b));
            && FirstAfterPush(capacity, start, |items|) + |next| == start + |items| + 1
            && |next| <= capacity && (capacity > 0 ==> next != [])
  {
  }

  lemma HoldsPush(buffer: seq<Byte>, start: nat, items: seq<Byte>, capacity: nat, b: Byte)
    requires Holds(buffer, start, items, capacity)
    ensures Holds(buffer[Mod(start + |items|, capacity) := b],
                  FirstAfterPush(capacity, start, |items|), After(capacity, items, PushByte(b)), capacity)
  {
    hide Mod;
    var next := After(capacity, items, PushByte(b));
    if |items| == capacity {
      assert next == items[1..] + [b];
      HoldsOverwrite(buffer, start, items, capacity, b);
    } else {
      assert next == items + [b];
      HoldsStore(buffer, start, items, capacity, b);
    }
  }
}
