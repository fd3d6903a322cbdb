/** One producer and one consumer on the fast ring, every load and store of a shared field a
    step of its own, interleaved in any order (sequentially consistent memory).

    The two loads that make up a count may come in either order. */
module SpscRing {
  import opened Foundations
  import opened NumericOps
  import opened DropOldest

  /** How far a push has come, with the values it has loaded. */
  datatype Producer =
    | PIdle
    | PBegun(byte: Byte)
    | PSlot(byte: Byte, write: Size)
    | PStored(byte: Byte)
    | PGotWrite(byte: Byte, write: Size)
    | PGotRead(byte: Byte, read: Size)
    | PCounted(byte: Byte, write: Size, read: Size)
    | POverwrite(byte: Byte, write: Size)
    | POverwritten(byte: Byte)
    | PBump(byte: Byte, write: Size)

  /** How far a pop has come; `seen` notes how many bytes were published when it loaded
      the write index. */
  datatype Consumer =
    | CIdle
    | CBegun
    | CGotWrite(write: Size, seen: nat)
    | CGotRead(read: Size)
    | CCounted(write: Size, read: Size, seen: nat)
    | CSlot(read: Size)
    | CByte(byte: Byte)
    | CBump(byte: Byte, read: Size)

  datatype State = State(
    exponent: nat, buffer: seq<Byte>, readIndex: Size, writeIndex: Size,
    producer: Producer, consumer: Consumer,
    published: seq<Byte>, delivered: seq<Byte>)

  predicate Shape(s: State) {
    1 <= s.exponent < SIZE_BITS && |s.buffer| == Pow2(s.exponent)
  }

  function Mask(s: State): (m: Size)
    requires Shape(s)
    ensures m + 1 == |s.buffer|
  {
    Pow2Monotone(s.exponent, SIZE_BITS);
    |s.buffer| - 1
  }

  function Slot(s: State, index: Size): (i: nat)
    requires Shape(s)
    ensures i < |s.buffer| && i == Mod(index, |s.buffer|)
  {
    MaskIsRemainder(index, s.exponent);
    BitAnd(index, Mask(s))
  }

  // ----- the steps -----

  function ProducerStep(s: State, readFirst: bool): (t: State)
    requires Shape(s)
    ensures Shape(t)
  {
    match s.producer
    case PIdle => s
    case PBegun(b) => s.(producer := PSlot(b, s.writeIndex))
    case PSlot(b, w) => s.(buffer := s.buffer[Slot(s, w) := b], producer := PStored(b))
    case PStored(b) =>
      s.(producer := if readFirst then PGotRead(b, s.readIndex) else PGotWrite(b, s.writeIndex))
    case PGotWrite(b, w) => s.(producer := PCounted(b, w, s.readIndex))
    case PGotRead(b, r) => s.(producer := PCounted(b, s.writeIndex, r))
    case PCounted(b, w, r) =>
      s.(producer := if WrapSub(w, r) > Mask(s) then POverwrite(b, s.writeIndex) else PBump(b, s.writeIndex))
    case POverwrite(b, w) => s.(readIndex := WrapSub(w, Mask(s)), producer := POverwritten(b))
    case POverwritten(b) => s.(producer := PBump(b, s.writeIndex))
    case PBump(b, w) =>
      s.(writeIndex := Wrap(w + 1), published := s.published + [b], producer := PIdle)
  }

  function ConsumerStep(s: State, readFirst: bool): (t: State)
    requires Shape(s)
    ensures Shape(t)
  {
    match s.consumer
    case CIdle => s
    case CBegun =>
      s.(consumer := if readFirst then CGotRead(s.readIndex) else CGotWrite(s.writeIndex, |s.published|))
    case CGotWrite(w, seen) => s.(consumer := CCounted(w, s.readIndex, seen))
    case CGotRead(r) => s.(consumer := CCounted(s.writeIndex, r, |s.published|))
    case CCounted(w, r, _) => s.(consumer := if WrapSub(w, r) == 0 then CIdle else CSlot(s.readIndex))
    case CSlot(r) => s.(consumer := CByte(s.buffer[Slot(s, r)]))
    case CByte(b) => s.(consumer := CBump(b, s.readIndex))
    case CBump(b, r) =>
      s.(readIndex := Wrap(r + 1), delivered := s.delivered + [b], consumer := CIdle)
  }

  datatype Action = BeginPush(byte: Byte) | BeginPop | Produce(readFirst: bool) | Consume(readFirst: bool)

  function Act(s: State, a: Action): (t: State)
    requires Shape(s)
    ensures Shape(t)
  {
    match a
    case BeginPush(b) => if s.producer.PIdle? then s.(producer := PBegun(b)) else s
    case BeginPop => if s.consumer.CIdle? then s.(consumer := CBegun) else s
    case Produce(readFirst) => ProducerStep(s, readFirst)
    case Consume(readFirst) => ConsumerStep(s, readFirst)
  }

  predicate IsFull(s: State) {
    WrapSub(s.writeIndex, s.readIndex) == |s.buffer|
  }

  function Run(s: State, actions: seq<Action>): (t: State)
    requires Shape(s)
    ensures Shape(t)
    decreases |actions|
  {
    if actions == [] then s else Run(Act(s, actions[0]), actions[1..])
  }

  /** The step that stores a byte in its slot. */
  predicate IsStore(s: State, a: Action) {
    a.Produce? && s.producer.PSlot?
  }

  /** No push stores its byte while the ring is full; it may well begin then. */
  predicate NeverStoresWhenFull(s: State, actions: seq<Action>)
    requires Shape(s)
    decreases |actions|
  {
    actions == [] ||
    (&& (IsStore(s, actions[0]) ==> !IsFull(s))
     && NeverStoresWhenFull(Act(s, actions[0]), actions[1..]))
  }

  // ----- the invariant -----

  /** Shared fields: delivered bytes lead the published ones, the rest is in the ring. */
  ghost predicate SharedInv(s: State) {
    && Shape(s) && 2 * |s.buffer| <= Modulus()
    && |s.delivered| <= |s.published| <= |s.delivered| + |s.buffer|
    && s.readIndex == Wrap(|s.delivered|) && s.writeIndex == Wrap(|s.published|)
    && s.delivered == s.published[..|s.delivered|]
    && Holds(s.buffer, |s.delivered|, s.published[|s.delivered|..], |s.buffer|)
  }

  /** From its store on, a push has room, sees no full ring, and its byte stays in its slot. */
  ghost predicate ProducerInv(s: State)
    requires Shape(s)
  {
    s.producer.PIdle? || s.producer.PBegun? ||
    (&& (!s.producer.PSlot? ==>
           && |s.published| < |s.delivered| + |s.buffer|
           && s.buffer[Mod(|s.published|, |s.buffer|)] == s.producer.byte)
     && match s.producer
        case PSlot(_, w) => w == s.writeIndex
        case PGotWrite(_, w) => w == s.writeIndex
        case PGotRead(_, r) => WrapSub(s.writeIndex, r) <= Mask(s)
        case PCounted(_, w, r) => w == s.writeIndex && WrapSub(w, r) <= Mask(s)
        case POverwrite(_, _) => false
        case POverwritten(_) => false
        case PBump(_, w) => w == s.writeIndex
        case _ => true)
  }

  /** A pop under way sees its own read index, and past the count takes a published byte. */
  ghost predicate ConsumerInv(s: State) {
    var taken := |s.delivered|;
    match s.consumer
    case CIdle => true
    case CBegun => true
    case CGotWrite(w, seen) => taken <= seen <= |s.published| && w == Wrap(seen)
    case CGotRead(r) => r == s.readIndex
    case CCounted(w, r, seen) => taken <= seen <= |s.published| && w == Wrap(seen) && r == s.readIndex
    case CSlot(r) => taken < |s.published| && r == s.readIndex
    case CByte(b) => taken < |s.published| && b == s.published[taken]
    case CBump(b, r) => taken < |s.published| && b == s.published[taken] && r == s.readIndex
  }

  ghost predicate Inv(s: State) {
    SharedInv(s) && ProducerInv(s) && ConsumerInv(s)
  }

  // ----- every step keeps it -----

  /** Storing behind the ring's bytes leaves them as they were. */
  lemma StoreKeepsShared(s: State, b: Byte)
    requires SharedInv(s) && |s.published| < |s.delivered| + |s.buffer|
    ensures Slot(s, s.writeIndex) == Mod(|s.published|, |s.buffer|)
    ensures SharedInv(s.(buffer := s.buffer[Slot(s, s.writeIndex) := b]))
  {
    hide Mod, Pow2, Modulus, Wrap, BitAnd;
    WrapKeepsRemainder(|s.published|, s.exponent);
    var items := s.published[|s.delivered|..];
    HoldsStore(s.buffer, |s.delivered|, items, |s.buffer|, b);
    var stored := s.buffer[Mod(|s.published|, |s.buffer|) := b];
    assert |s.delivered| + |items| == |s.published|;
    forall i | 0 <= i < |items|
      ensures items[i] == stored[Mod(|s.delivered| + i, |s.buffer|)]
    {
      assert (items + [b])[i] == items[i];
    }
  }

  /** A store on a full ring replaces the oldest byte, and is harmless only if it is the
      same byte. */
  lemma StoreKeepsSharedIff(s: State, b: Byte)
    requires SharedInv(s)
    ensures SharedInv(s.(buffer := s.buffer[Slot(s, s.writeIndex) := b])) <==>
              !IsFull(s) || b == s.published[|s.delivered|]
  {
    hide Mod, Pow2, Modulus, Wrap, WrapSub, BitAnd;
    var n, size := |s.delivered|, |s.buffer|;
    WrapDistance(n, |s.published|);
    if IsFull(s) {
      assert Slot(s, s.writeIndex) == Mod(n, size) by {
        WrapKeepsRemainder(|s.published|, s.exponent);
        ModPeriodic(n, size);
      }
      var items, stored := s.published[n..], s.buffer[Mod(n, size) := b];
      assert items[0] == s.buffer[Mod(n + 0, size)];
      assert stored[Mod(n + 0, size)] == b;
      if b == items[0] {
        assert stored == s.buffer;
      }
    } else {
      StoreKeepsShared(s, b);
    }
  }

  lemma PublishKeepsShared(s: State, b: Byte)
    requires SharedInv(s) && |s.published| < |s.delivered| + |s.buffer|
    requires s.buffer[Mod(|s.published|, |s.buffer|)] == b
    ensures SharedInv(s.(writeIndex := Wrap(s.writeIndex + 1), published := s.published + [b]))
  {
    hide Mod, Pow2, Modulus, Wrap;
    WrapStep(|s.published|, 1);
    var items, more := s.published[|s.delivered|..], (s.published + [b])[|s.delivered|..];
    assert more == items + [b];
    forall i | 0 <= i < |more|
      ensures more[i] == s.buffer[Mod(|s.delivered| + i, |s.buffer|)]
    {
      assert i == |items| ==> |s.delivered| + i == |s.published|;
    }
  }

  lemma TakeKeepsShared(s: State)
    requires SharedInv(s) && |s.delivered| < |s.published|
    ensures SharedInv(s.(readIndex := Wrap(s.readIndex + 1),
                         delivered := s.delivered + [s.published[|s.delivered|]]))
  {
    hide Mod, Pow2, Modulus, Wrap;
    var n := |s.delivered|;
    WrapStep(n, 1);
    HoldsTail(s.buffer, n, s.published[n..], |s.buffer|);
    assert s.published[n..][1..] == s.published[n + 1..];
  }

  lemma ProducerKeepsInv(s: State, readFirst: bool)
    requires Inv(s) && (s.producer.PSlot? ==> !IsFull(s))
    ensures Inv(ProducerStep(s, readFirst))
  {
    hide Mod, Pow2, Modulus, Wrap, WrapSub, BitAnd, Holds;
    var t := ProducerStep(s, readFirst);
    WrapDistance(|s.delivered|, |s.published|);
    match s.producer {
      case PSlot(b, w) => StoreKeepsShared(s, b);
      case PBump(b, w) => PublishKeepsShared(s, b);
      case _ =>
    }
  }

  lemma ConsumerKeepsInv(s: State, readFirst: bool)
    requires Inv(s)
    ensures Inv(ConsumerStep(s, readFirst))
  {
    hide Mod, Pow2, Modulus, Wrap, WrapSub, BitAnd, Holds;
    var t := ConsumerStep(s, readFirst);
    match s.consumer {
      case CCounted(w, r, seen) => WrapDistance(|s.delivered|, seen);
      case CSlot(r) =>
        HoldsTail(s.buffer, |s.delivered|, s.published[|s.delivered|..], |s.buffer|);
        WrapKeepsRemainder(|s.delivered|, s.exponent);
      case CBump(b, r) => TakeKeepsShared(s);
      case _ =>
    }
    assert SharedInv(t);
  }

  lemma ActKeepsInv(s: State, a: Action)
    requires Inv(s) && (IsStore(s, a) ==> !IsFull(s))
    ensures Inv(Act(s, a))
  {
    match a {
      case BeginPush(b) =>
      case BeginPop =>
      case Produce(readFirst) => ProducerKeepsInv(s, readFirst);
      case Consume(readFirst) => ConsumerKeepsInv(s, readFirst);
    }
  }

  // ----- whole interleavings -----

  lemma {:induction false} RunKeepsInv(s: State, actions: seq<Action>)
    requires Inv(s) && NeverStoresWhenFull(s, actions)
    ensures Inv(Run(s, actions))
    decreases |actions|
  {
    if actions != [] {
      ActKeepsInv(s, actions[0]);
      RunKeepsInv(Act(s, actions[0]), actions[1..]);
    }
  }

  /** A freshly initialised ring of 2^exponent bytes. */
  function Fresh(exponent: nat, buffer: seq<Byte>): State
    requires 1 <= exponent < SIZE_BITS && |buffer| == Pow2(exponent)
  {
    State(exponent, buffer, 0, 0, PIdle, CIdle, [], [])
  }

  /** Every interleaving in which no byte is stored on a full ring delivers the pushed bytes in
      order, without loss or repetition: what was published is what was delivered followed
      by what the ring holds. A pop reports EMPTY exactly when nothing was left when it
      loaded the write index, and otherwise takes the next byte in line. */
  lemma InterleavingsDeliverInOrder(exponent: nat, buffer: seq<Byte>, actions: seq<Action>)
    requires 1 <= exponent < SIZE_BITS && |buffer| == Pow2(exponent)
    requires NeverStoresWhenFull(Fresh(exponent, buffer), actions)
    ensures var s := Run(Fresh(exponent, buffer), actions);
            var n := |s.delivered|;
            && n <= |s.published| <= n + |buffer|
            && s.delivered == s.published[..n]
            && Holds(s.buffer, n, s.published[n..], |buffer|)
            && (s.consumer.CCounted? ==>
                  (WrapSub(s.consumer.write, s.consumer.read) == 0 <==> s.consumer.seen == n))
            && (s.consumer.CBump? ==> n < |s.published| && s.consumer.byte == s.published[n])
  {
    var f := Fresh(exponent, buffer);
    assert 2 * |buffer| <= Modulus() by { Pow2Monotone(exponent + 1, SIZE_BITS); }
    assert Inv(f);
    RunKeepsInv(f, actions);
    var s := Run(f, actions);
    if s.consumer.CCounted? {
      WrapDistance(|s.delivered|, s.consumer.seen);
    }
    RunKeepsSlots(f, actions);
  }

  lemma {:induction false} RunKeepsSlots(s: State, actions: seq<Action>)
    requires Shape(s)
    ensures Run(s, actions).exponent == s.exponent
    decreases |actions|
  {
    if actions != [] {
      RunKeepsSlots(Act(s, actions[0]), actions[1..]);
    }
  }

  // ----- undisturbed calls are the calls of the reference queue -----

  /** The ring's fields stand for `items`, from index `head` on. */
  ghost predicate StandsFor(s: State, head: nat, items: seq<Byte>) {
    && Shape(s) && 2 * |s.buffer| <= Modulus()
    && s.readIndex == Wrap(head) && s.writeIndex == Wrap(head + |items|)
    && Holds(s.buffer, head, items, |s.buffer|)
  }

  /** All steps of a push, without any of the consumer; an idle producer does nothing. */
  function CompletePush(s: State): (t: State)
    requires Shape(s)
    ensures Shape(t)
  {
    var t1 := ProducerStep(ProducerStep(ProducerStep(s, false), false), false);
    var t2 := ProducerStep(ProducerStep(ProducerStep(t1, false), false), false);
    ProducerStep(ProducerStep(t2, false), false)
  }

  /** All steps of a pop, without any of the producer. */
  function CompletePop(s: State): (t: State)
    requires Shape(s)
    ensures Shape(t)
  {
    var t1 := ConsumerStep(ConsumerStep(ConsumerStep(s, false), false), false);
    ConsumerStep(ConsumerStep(ConsumerStep(t1, false), false), false)
  }

  lemma PushWithRoomAppends(s: State, b: Byte, head: nat, items: seq<Byte>)
    requires StandsFor(s, head, items) && s.producer.PIdle? && |items| < |s.buffer|
    ensures CompletePush(Act(s, BeginPush(b)))
            == s.(buffer := s.buffer[Slot(s, s.writeIndex) := b], writeIndex := Wrap(s.writeIndex + 1),
                  published := s.published + [b])
  {
    hide Mod, Pow2, Modulus, Wrap, WrapSub, BitAnd, Holds, Slot;
    var w: Size := s.writeIndex;
    WrapDistance(head, head + |items|);
    var p3 := s.(buffer := s.buffer[Slot(s, w) := b], producer := PStored(b));
    var p5 := p3.(producer := PCounted(b, w, s.readIndex));
    assert ProducerStep(ProducerStep(s.(producer := PBegun(b)), false), false) == p3;
    assert ProducerStep(ProducerStep(p3, false), false) == p5;
    assert ProducerStep(p5, false) == p5.(producer := PBump(b, w));
  }

  /** A whole push, on a full ring or not, is the push of the reference queue. */
  lemma PushComputesAfter(s: State, b: Byte, head: nat, items: seq<Byte>)
    requires StandsFor(s, head, items) && s.producer.PIdle?
    ensures var t := CompletePush(Act(s, BeginPush(b)));
            && t.producer.PIdle? && t.consumer == s.consumer && t.published == s.published + [b]
            && StandsFor(t, FirstAfterPush(|s.buffer|, head, |items|), After(|s.buffer|, items, PushByte(b)))
  {
    hide Mod, Pow2, Modulus, Wrap, WrapSub, BitAnd, Holds, CompletePush, Act, After, Slot;
    var size, tail := |s.buffer|, head + |items|;
    assert Slot(s, s.writeIndex) == Mod(tail, size) by { WrapKeepsRemainder(tail, s.exponent); }
    HoldsPush(s.buffer, head, items, size, b);
    HoldsBound(s.buffer, head, items, size);
    LengthAfterPush(size, head, items, b);
    WrapStep(tail, 1);
    if |items| < size {
      PushWithRoomAppends(s, b, head, items);
    } else {
      PushOnFullOverwrites(s, b, head, items);
      WrapBack(tail, Mask(s));
    }
  }

  lemma HoldsBound(buffer: seq<Byte>, head: nat, items: seq<Byte>, size: nat)
    requires Holds(buffer, head, items, size)
    ensures |items| <= size
  {
  }

  /** A whole pop is the pop of the reference queue: it delivers the oldest byte, or nothing
      when there is none. */
  lemma PopComputesAnswer(s: State, head: nat, items: seq<Byte>)
    requires StandsFor(s, head, items) && s.consumer.CIdle?
    ensures var t := CompletePop(Act(s, BeginPop));
            && t.consumer.CIdle? && t.producer == s.producer
            && StandsFor(t, if items == [] then head else head + 1, After(|s.buffer|, items, PopByte))
            && match Answer(|s.buffer|, items, PopByte)
               case Popped(ErrNone, Some(b)) => t.delivered == s.delivered + [b]
               case reply => reply == Popped(ErrEmpty, None) && t.delivered == s.delivered
  {
    hide Mod, Pow2, Modulus, Wrap, WrapSub, BitAnd, Holds;
    HoldsBound(s.buffer, head, items, |s.buffer|);
    WrapDistance(head, head + |items|);
    var r: Size, w: Size := s.readIndex, s.writeIndex;
    var counted := s.(consumer := CCounted(w, r, |s.published|));
    assert ConsumerStep(ConsumerStep(s.(consumer := CBegun), false), false) == counted;
    if items != [] {
      HoldsTail(s.buffer, head, items, |s.buffer|);
      WrapKeepsRemainder(head, s.exponent);
      WrapStep(head, 1);
      assert ConsumerStep(counted, false) == s.(consumer := CSlot(r));
      assert ConsumerStep(s.(consumer := CSlot(r)), false) == s.(consumer := CByte(items[0]));
    }
  }

  // ----- why no byte must be stored on a full ring -----

  /** A push carried through on a full ring: it overwrites the oldest slot and moves the
      read index past it. */
  function AfterOverwrite(s: State, b: Byte): State
    requires Shape(s)
  {
    var w: nat := s.writeIndex;
    s.(buffer := s.buffer[Slot(s, w) := b], readIndex := WrapSub(w, Mask(s)),
       writeIndex := Wrap(w + 1), published := s.published + [b], producer := PIdle)
  }

  lemma PushOnFullOverwrites(s: State, b: Byte, head: nat, items: seq<Byte>)
    requires StandsFor(s, head, items) && s.producer.PIdle? && |items| == |s.buffer|
    ensures IsFull(s) && CompletePush(Act(s, BeginPush(b))) == AfterOverwrite(s, b)
  {
    hide Mod, Pow2, Modulus, Wrap, WrapSub, BitAnd, Holds, Slot;
    var w: Size := s.writeIndex;
    WrapDistance(head, head + |items|);
    var p3 := s.(buffer := s.buffer[Slot(s, w) := b], producer := PStored(b));
    var p5 := p3.(producer := PCounted(b, w, s.readIndex));
    assert ProducerStep(ProducerStep(s.(producer := PBegun(b)), false), false) == p3;
    assert ProducerStep(ProducerStep(p3, false), false) == p5;
    assert ProducerStep(p5, false) == p5.(producer := POverwrite(b, w));
  }

  /** Between the count and the load of a pop from a full ring, a push overwrites the byte
      that the pop is about to take: the newest byte is delivered in the place of the oldest,
      and order is lost unless the two happen to be equal. */
  lemma OverwriteOvertakesPop(s: State, b: Byte)
    requires Inv(s) && s.producer.PIdle? && s.consumer.CSlot?
    requires |s.published| == |s.delivered| + |s.buffer|
    ensures var t := CompletePush(Act(s, BeginPush(b)));
            var u := ConsumerStep(ConsumerStep(ConsumerStep(t, false), false), false);
            && u.published == s.published + [b] && u.delivered == s.delivered + [b]
            && (u.delivered <= u.published <==> b == s.published[|s.delivered|])
  {
    hide Mod, Pow2, Modulus, Wrap, WrapSub, BitAnd, Holds, Mask, CompletePush, ProducerStep;
    var n, size := |s.delivered|, |s.buffer|;
    PushOnFullOverwrites(s, b, n, s.published[n..]);
    var t := AfterOverwrite(s, b);
    assert Slot(t, s.consumer.read) == Slot(s, s.writeIndex) by {
      WrapKeepsRemainder(n, s.exponent);
      WrapKeepsRemainder(n + size, s.exponent);
      ModPeriodic(n, size);
    }
    assert ConsumerStep(t, false) == t.(consumer := CByte(b));
    DeliveryInOrderIff(s.published, n, b);
  }

  lemma DeliveryInOrderIff(published: seq<Byte>, n: nat, b: Byte)
    requires n < |published|
    ensures published[..n] + [b] <= published + [b] <==> b == published[n]
  {
    var d, p := published[..n] + [b], published + [b];
    assert d[n] == b && p[n] == published[n];
  }
}
