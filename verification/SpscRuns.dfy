/** Runs on the fast ring in which pushes may also overwrite a full ring: when they are the
    calls of the reference queue, bytes it drops included. */
module SpscRuns {
  import opened Foundations
  import opened NumericOps
  import opened DropOldest
  import opened SpscRing

  // ----- what a run tells -----

  /** The answer of the pop that ends with this action, if one does. */
  function Reply(s: State, a: Action): seq<Reply> {
    match (a, s.consumer)
    case (Consume(_), CCounted(w, r, _)) => if WrapSub(w, r) == 0 then [Popped(ErrEmpty, None)] else []
    case (Consume(_), CBump(b, _)) => [Popped(ErrNone, Some(b))]
    case _ => []
  }

  /** The call that takes effect with this action: a push with its write-index store, a pop with
      its read-index store or, when it is to find nothing, with its load of the write index. */
  function Effect(s: State, a: Action): (e: seq<Op>)
    ensures |e| <= 1
  {
    match a
    case Produce(_) => if s.producer.PBump? then [PushByte(s.producer.byte)] else []
    case Consume(readFirst) =>
      var nothing := match s.consumer
        case CBegun => !readFirst && s.writeIndex == s.readIndex
        case CGotRead(r) => s.writeIndex == r
        case _ => false;
      if nothing || s.consumer.CBump? then [PopByte] else []
    case _ => []
  }

  function Answers(s: State, actions: seq<Action>): seq<Reply>
    requires Shape(s)
    decreases |actions|
  {
    if actions == [] then [] else Reply(s, actions[0]) + Answers(Act(s, actions[0]), actions[1..])
  }

  function Effects(s: State, actions: seq<Action>): seq<Op>
    requires Shape(s)
    decreases |actions|
  {
    if actions == [] then [] else Effect(s, actions[0]) + Effects(Act(s, actions[0]), actions[1..])
  }

  /** The answer of a pop that has taken effect and not yet returned. */
  function Promised(s: State): seq<Reply> {
    var nothing := match s.consumer
      case CGotWrite(w, _) => w == s.readIndex
      case CCounted(w, r, _) => w == r
      case _ => false;
    if nothing then [Popped(ErrEmpty, None)] else []
  }

  /** The byte of a push that has not yet taken effect. */
  function Awaited(s: State): seq<Byte> {
    if s.producer.PIdle? then [] else [s.producer.byte]
  }

  /** The bytes whose push the run begins. */
  function NewPush(s: State, a: Action): seq<Byte> {
    if a.BeginPush? && s.producer.PIdle? then [a.byte] else []
  }

  function Begun(s: State, actions: seq<Action>): seq<Byte>
    requires Shape(s)
    decreases |actions|
  {
    if actions == [] then [] else NewPush(s, actions[0]) + Begun(Act(s, actions[0]), actions[1..])
  }

  // ----- the condition -----

  /** The pop, if there is one, has loaded nothing. */
  predicate Unloaded(k: Consumer) {
    k.CIdle? || k.CBegun?
  }

  /** A byte is stored on a full ring only while no pop has loaded anything, and from then to
      the end of its push, which `overwriting` marks, no pop takes a step. */
  predicate Undisturbed(s: State, overwriting: bool, actions: seq<Action>)
    requires Shape(s)
    decreases |actions|
  {
    actions == [] ||
    (var a := actions[0];
     && (IsStore(s, a) && IsFull(s) ==> Unloaded(s.consumer))
     && (overwriting && a.Consume? ==> s.consumer.CIdle?)
     && Undisturbed(Act(s, a), NextOverwriting(s, overwriting, a), actions[1..]))
  }

  function NextOverwriting(s: State, overwriting: bool, a: Action): bool
    requires Shape(s)
  {
    if IsStore(s, a) then IsFull(s) else overwriting && !Act(s, a).producer.PIdle?
  }

  // ----- the invariant -----

  predicate InHand(p: Producer) {
    !p.PIdle? && !p.PBegun? && !p.PSlot?
  }

  ghost predicate Contents(s: State, head: nat, items: seq<Byte>)
    requires Shape(s)
  {
    var p, size := s.producer, |s.buffer|;
    && 2 * size <= Modulus() && |items| <= size
    && head + |items| == |s.published|
    && s.writeIndex == Wrap(|s.published|)
    && s.readIndex == Wrap(if p.POverwritten? || (p.PBump? && |items| == size) then head + 1 else head)
    && if InHand(p)
       then Holds(s.buffer, FirstAfterPush(size, head, |items|), After(size, items, PushByte(p.byte)), size)
       else Holds(s.buffer, head, items, size)
  }

  ghost predicate ProducerKept(s: State, full: bool)
    requires Shape(s)
  {
    match s.producer
    case PSlot(_, w) => w == s.writeIndex
    case PGotWrite(_, w) => w == s.writeIndex
    case PGotRead(_, r) => full <==> WrapSub(s.writeIndex, r) > Mask(s)
    case PCounted(_, w, r) => full <==> WrapSub(w, r) > Mask(s)
    case POverwrite(_, w) => full && w == s.writeIndex
    case POverwritten(_) => full
    case PBump(_, w) => w == s.writeIndex
    case _ => true
  }

  ghost predicate ConsumerKept(s: State, head: nat, items: seq<Byte>) {
    match s.consumer
    case CIdle => true
    case CBegun => true
    case CGotWrite(w, seen) => head <= seen <= head + |items| && w == Wrap(seen)
    case CGotRead(r) => r == s.readIndex
    case CCounted(w, r, seen) => head <= seen <= head + |items| && w == Wrap(seen) && r == s.readIndex
    case CSlot(r) => items != [] && r == s.readIndex
    case CByte(b) => items != [] && b == items[0]
    case CBump(b, r) => items != [] && b == items[0] && r == s.readIndex
  }

  ghost predicate Inv(s: State, overwriting: bool, head: nat, items: seq<Byte>) {
    var full := |items| == |s.buffer|;
    && Shape(s) && Contents(s, head, items) && ProducerKept(s, full) && ConsumerKept(s, head, items)
    && overwriting == (InHand(s.producer) && full)
    && (overwriting ==> Unloaded(s.consumer))
  }

  function NextHead(s: State, head: nat, items: seq<Byte>, op: Op): nat {
    match op
    case PushByte(_) => FirstAfterPush(|s.buffer|, head, |items|)
    case _ => if items == [] then head else head + 1
  }

  // ----- every step keeps it -----

  lemma FullIff(s: State, head: nat, items: seq<Byte>)
    requires Shape(s) && Contents(s, head, items)
    requires s.readIndex == Wrap(head)
    ensures WrapSub(s.writeIndex, s.readIndex) == |items|
    ensures IsFull(s) <==> |items| == |s.buffer|
  {
    hide Wrap, WrapSub, Modulus, Holds, Mod, Pow2;
    WrapDistance(head, head + |items|);
  }

  lemma PushTakesEffect(s: State, o: bool, head: nat, items: seq<Byte>, readFirst: bool)
    requires Inv(s, o, head, items) && s.producer.PBump?
    ensures var push := PushByte(s.producer.byte);
            Inv(ProducerStep(s, readFirst), false, NextHead(s, head, items, push), After(|s.buffer|, items, push))
  {
    hide Wrap, WrapSub, Modulus, Holds, Mod, Pow2;
    var b := s.producer.byte;
    LengthAfterPush(|s.buffer|, head, items, b);
    WrapStep(|s.published|, 1);
    assert |items| < |s.buffer| ==> After(|s.buffer|, items, PushByte(b)) == items + [b];
  }

  lemma ProducerMovesOn(s: State, o: bool, head: nat, items: seq<Byte>, readFirst: bool)
    requires Inv(s, o, head, items) && !s.producer.PBump?
    requires s.producer.PSlot? && IsFull(s) ==> Unloaded(s.consumer)
    ensures Inv(ProducerStep(s, readFirst), NextOverwriting(s, o, Produce(readFirst)), head, items)
  {
    hide Wrap, WrapSub, Modulus, Holds, Mod, Pow2, After, BitAnd;
    if !s.producer.POverwritten? {
      FullIff(s, head, items);
    }
    if s.producer.PSlot? {
      WrapKeepsRemainder(|s.published|, s.exponent);
      HoldsPush(s.buffer, head, items, |s.buffer|, s.producer.byte);
    } else if s.producer.POverwrite? {
      WrapBack(|s.published|, Mask(s));
    }
  }

  lemma PopTakesEffect(s: State, head: nat, items: seq<Byte>, readFirst: bool)
    requires Inv(s, false, head, items) && s.consumer.CBump?
    ensures items != [] && s.consumer.byte == items[0]
    ensures Inv(ConsumerStep(s, readFirst), false, head + 1, items[1..])
  {
    hide Wrap, WrapSub, Modulus, Holds, Mod, Pow2, BitAnd;
    WrapStep(head, 1);
    if InHand(s.producer) {
      var b := s.producer.byte;
      assert (items + [b])[1..] == items[1..] + [b];
      HoldsTail(s.buffer, head, items + [b], |s.buffer|);
    } else {
      HoldsTail(s.buffer, head, items, |s.buffer|);
    }
  }

  lemma OldestAtRead(s: State, head: nat, items: seq<Byte>)
    requires Inv(s, false, head, items) && items != []
    ensures s.buffer[Slot(s, s.readIndex)] == items[0]
  {
    hide Wrap, WrapSub, Modulus, Holds, Mod, Pow2, BitAnd;
    WrapKeepsRemainder(head, s.exponent);
    if InHand(s.producer) {
      assert (items + [s.producer.byte])[0] == items[0];
      HoldsTail(s.buffer, head, items + [s.producer.byte], |s.buffer|);
    } else {
      HoldsTail(s.buffer, head, items, |s.buffer|);
    }
  }

  lemma ConsumerMovesOn(s: State, head: nat, items: seq<Byte>, readFirst: bool)
    requires Inv(s, false, head, items) && !s.consumer.CBump?
    ensures Inv(ConsumerStep(s, readFirst), false, head, items)
    ensures Effect(s, Consume(readFirst)) == [PopByte] ==> items == []
    ensures s.consumer.CCounted? ==>
              (WrapSub(s.consumer.write, s.consumer.read) == 0 <==> s.consumer.write == s.consumer.read)
  {
    hide Wrap, WrapSub, Modulus, Holds, Mod, Pow2, BitAnd, After;
    FullIff(s, head, items);
    match s.consumer {
      case CCounted(w, r, seen) => WrapDistance(head, seen);
      case CSlot(r) => OldestAtRead(s, head, items);
      case _ =>
    }
    assert Contents(ConsumerStep(s, readFirst), head, items);
  }

  // ----- whole runs -----

  /** An action keeps the invariant, its effect counted in, and the pop it answers is answered
      as the reference queue does. */
  ghost predicate Tracks(s: State, o: bool, head: nat, items: seq<Byte>, a: Action)
    requires Shape(s)
  {
    var e := Effect(s, a);
    && Inv(Act(s, a), NextOverwriting(s, o, a), if e == [] then head else NextHead(s, head, items, e[0]),
           RunAfter(|s.buffer|, items, e))
    && Reply(s, a) + Promised(Act(s, a)) == Promised(s) + PopReplies(Replies(|s.buffer|, items, e))
  }

  lemma ProducerKeepsPromise(s: State, o: bool, head: nat, items: seq<Byte>, readFirst: bool)
    requires Inv(s, o, head, items)
    ensures Promised(ProducerStep(s, readFirst)) == Promised(s)
  {
    hide Wrap, WrapSub, Modulus, Holds, Mod, Pow2, BitAnd, After;
  }

  lemma ProducerTracks(s: State, o: bool, head: nat, items: seq<Byte>, readFirst: bool)
    requires Shape(s) && Inv(s, o, head, items)
    requires s.producer.PSlot? && IsFull(s) ==> Unloaded(s.consumer)
    ensures Tracks(s, o, head, items, Produce(readFirst))
  {
    hide Inv, After, Promised;
    ProducerKeepsPromise(s, o, head, items, readFirst);
    if s.producer.PBump? {
      PushTakesEffect(s, o, head, items, readFirst);
      RunOfOne(|s.buffer|, items, PushByte(s.producer.byte));
    } else {
      ProducerMovesOn(s, o, head, items, readFirst);
    }
  }

  lemma ConsumerTracks(s: State, head: nat, items: seq<Byte>, readFirst: bool)
    requires Shape(s) && Inv(s, false, head, items)
    ensures Tracks(s, false, head, items, Consume(readFirst))
  {
    hide Inv, Wrap, WrapSub, Modulus, Mod;
    if s.consumer.CBump? {
      PopTakesEffect(s, head, items, readFirst);
    } else {
      ConsumerMovesOn(s, head, items, readFirst);
    }
    RunOfOne(|s.buffer|, items, PopByte);
  }

  lemma BeginTracks(s: State, o: bool, head: nat, items: seq<Byte>, a: Action)
    requires Shape(s) && Inv(s, o, head, items)
    requires a.BeginPush? || a.BeginPop? || (a.Consume? && s.consumer.CIdle?)
    ensures Tracks(s, o, head, items, a)
  {
    hide Wrap, WrapSub, Modulus, Holds, Mod, Pow2, BitAnd, After;
  }

  lemma ActTracks(s: State, o: bool, head: nat, items: seq<Byte>, a: Action)
    requires Shape(s) && Inv(s, o, head, items)
    requires IsStore(s, a) && IsFull(s) ==> Unloaded(s.consumer)
    requires o && a.Consume? ==> s.consumer.CIdle?
    ensures Tracks(s, o, head, items, a)
  {
    hide Inv, Tracks;
    match a {
      case Produce(readFirst) => ProducerTracks(s, o, head, items, readFirst);
      case Consume(readFirst) =>
        if s.consumer.CIdle? {
          BeginTracks(s, o, head, items, a);
        } else {
          ConsumerTracks(s, head, items, readFirst);
        }
      case _ => BeginTracks(s, o, head, items, a);
    }
  }

  lemma {:induction false} RunTracks(s: State, o: bool, head: nat, items: seq<Byte>, actions: seq<Action>)
    returns (last: nat, still: bool)
    requires Shape(s) && Inv(s, o, head, items) && Undisturbed(s, o, actions)
    ensures var t, log := Run(s, actions), Effects(s, actions);
            && Inv(t, still, last, RunAfter(|s.buffer|, items, log)) && |t.buffer| == |s.buffer|
            && Answers(s, actions) + Promised(t) == Promised(s) + PopReplies(Replies(|s.buffer|, items, log))
    decreases |actions|
  {
    hide Inv, After, Effect, Reply, Act, Promised, NextHead, NextOverwriting, Pow2;
    last, still := head, o;
    if actions != [] {
      hide RunAfter, Replies, PopReplies;
      var a, rest := actions[0], actions[1..];
      var t, e, size := Act(s, a), Effect(s, a), |s.buffer|;
      ActKeepsSize(s, a);
      ActTracks(s, o, head, items, a);
      var next := if e == [] then head else NextHead(s, head, items, e[0]);
      var middle := RunAfter(size, items, e);
      last, still := RunTracks(t, NextOverwriting(s, o, a), next, middle, rest);
      var log, u := Effects(t, rest), Run(t, rest);
      RunSplits(size, items, e, log);
      JoinAnswers(Promised(s), Reply(s, a), Promised(t), Answers(t, rest), Promised(u),
                  PopReplies(Replies(size, items, e)), PopReplies(Replies(size, middle, log)));
    }
  }

  lemma ActKeepsSize(s: State, a: Action)
    requires Shape(s)
    ensures |Act(s, a).buffer| == |s.buffer|
  {
    hide Wrap, WrapSub, Modulus, Mod, Pow2, BitAnd;
  }

  lemma PushTakesEffectOnce(s: State, a: Action)
    requires Shape(s)
    ensures PushedBytes(Effect(s, a)) + Awaited(Act(s, a)) == Awaited(s) + NewPush(s, a)
  {
    hide Wrap, WrapSub, Modulus, Mod, Pow2, BitAnd;
  }

  lemma {:induction false} PushesTakeEffectOnce(s: State, actions: seq<Action>)
    requires Shape(s)
    ensures PushedBytes(Effects(s, actions)) + Awaited(Run(s, actions)) == Awaited(s) + Begun(s, actions)
    decreases |actions|
  {
    if actions != [] {
      hide Act, Effect, Awaited, NewPush;
      var a, rest := actions[0], actions[1..];
      var t, e := Act(s, a), Effect(s, a);
      PushTakesEffectOnce(s, a);
      PushesTakeEffectOnce(t, rest);
      PushedBytesSplit(e, Effects(t, rest));
      JoinAnswers(Awaited(s), PushedBytes(e), Awaited(t), PushedBytes(Effects(t, rest)), Awaited(Run(t, rest)),
                  NewPush(s, a), Begun(t, rest));
    }
  }

  /** Every interleaving in which no pop has loaded anything when a byte is stored on a full
      ring, nor takes a step before that push is over, is a run of the reference queue, each
      call taking effect once, at one of its own steps: every pop is answered as the queue
      answers it, dropped bytes included, and at rest the ring holds what the queue holds. */
  lemma UndisturbedRunsAreQueueRuns(exponent: nat, buffer: seq<Byte>, actions: seq<Action>)
    requires 1 <= exponent < SIZE_BITS && |buffer| == Pow2(exponent)
    requires Undisturbed(Fresh(exponent, buffer), false, actions)
    ensures var f := Fresh(exponent, buffer);
            var t, log := Run(f, actions), Effects(f, actions);
            && Answers(f, actions) + Promised(t) == PopReplies(Replies(|buffer|, [], log))
            && PushedBytes(log) + Awaited(t) == Begun(f, actions)
            && (t.producer.PIdle? ==> exists head: nat :: StandsFor(t, head, RunAfter(|buffer|, [], log)))
  {
    hide After, Act, RunAfter, Replies, Effect, Reply;
    var f := Fresh(exponent, buffer);
    assert 2 * |buffer| <= Modulus() by { Pow2Monotone(exponent + 1, SIZE_BITS); }
    assert Inv(f, false, 0, []);
    var head, still := RunTracks(f, false, 0, [], actions);
    PushesTakeEffectOnce(f, actions);
    assert Promised(f) == [] && Awaited(f) == [];
    assert Awaited(f) + Begun(f, actions) == Begun(f, actions);
    var t := Run(f, actions);
    if t.producer.PIdle? {
      assert StandsFor(t, head, RunAfter(|buffer|, [], Effects(f, actions)));
    }
  }

  /** Runs that never store on a full ring are among them. */
  lemma {:induction false} NeverFullIsUndisturbed(s: State, actions: seq<Action>)
    requires Shape(s) && NeverStoresWhenFull(s, actions)
    ensures Undisturbed(s, false, actions)
    decreases |actions|
  {
    if actions != [] {
      hide Act;
      NeverFullIsUndisturbed(Act(s, actions[0]), actions[1..]);
    }
  }
}
