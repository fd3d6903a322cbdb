/** Runs of any number of calls on the plain ring, one producer's and one consumer's, at every
    load and store: when they are the calls of the reference queue, in some order that agrees
    with the order in which they were made. */
module PlainRuns {
  import opened Foundations
  import opened DropOldest
  import opened CircularBuffer
  import opened PlainSpsc

  datatype Action = BeginPush(byte: Byte) | BeginPop | Take(turn: Turn)

  function Act(s: State, a: Action): (t: State)
    requires Shape(s)
    ensures Shape(t) && t.size == s.size
  {
    match a
    case BeginPush(b) => if s.producer.PIdle? then s.(producer := PBegun(b)) else s
    case BeginPop => if s.consumer.CDone? then s.(consumer := CCount(Above, Neither)) else s
    case Take(turn) => Step(s, turn)
  }

  function Run(s: State, actions: seq<Action>): (t: State)
    requires Shape(s)
    ensures Shape(t) && t.size == s.size
    decreases |actions|
  {
    if actions == [] then s else Run(Act(s, actions[0]), actions[1..])
  }

  // ----- what a run tells -----

  /** The pop that ends with this action, if one does. */
  function Reply(s: State, a: Action): seq<Reply>
    requires Shape(s)
  {
    var t := Act(s, a);
    if s.consumer.CDone? || !t.consumer.CDone? then []
    else match t.consumer.taken
      case None => [Popped(ErrEmpty, None)]
      case Some(x) => [Popped(ErrNone, Some(x))]
  }

  /** The call that takes effect with this action: a push with the first store that moves an
      index, a pop with its index store or, finding nothing, with its last load. */
  function Effect(s: State, a: Action): (e: seq<Op>)
    requires Shape(s)
    ensures |e| <= 1
  {
    match a
    case Take(Produce(_)) =>
      if s.producer.POverwriting? || (s.producer.PBump? && !s.producer.overwrote) then [PushByte(s.producer.byte)]
      else []
    case Take(Consume(_)) =>
      if s.consumer.CBump? || Reply(s, a) == [Popped(ErrEmpty, None)] then [PopByte] else []
    case _ => []
  }

  function Answers(s: State, actions: seq<Action>): seq<Reply>
    requires Shape(s)
    decreases |actions|
  {
    if actions == [] then [] else Reply(s, actions[0]) + Answers(Act(s, actions[0]), actions[1..])
  }

  function Effects(s: State, actions: seq<Action>): seq<Op>
    requires Shape(s)
    decreases |actions|
  {
    if actions == [] then [] else Effect(s, actions[0]) + Effects(Act(s, actions[0]), actions[1..])
  }

  /** The bytes whose push the run begins. */
  function NewPush(s: State, a: Action): seq<Byte> {
    if a.BeginPush? && s.producer.PIdle? then [a.byte] else []
  }

  function Begun(s: State, actions: seq<Action>): seq<Byte>
    requires Shape(s)
    decreases |actions|
  {
    if actions == [] then [] else NewPush(s, actions[0]) + Begun(Act(s, actions[0]), actions[1..])
  }

  /** The answer of a pop that has taken effect and not yet returned. */
  function Promised(s: State): seq<Reply> {
    if s.consumer.CCompare? || s.consumer.CFlag? then [Popped(ErrNone, Some(s.consumer.byte))] else []
  }

  /** The byte of a push that has not yet taken effect. */
  function Awaited(s: State): seq<Byte> {
    match s.producer
    case PIdle => []
    case PFlag => []
    case PAdvance(b, overwrote) => if overwrote then [] else [b]
    case PBump(b, _, overwrote) => if overwrote then [] else [b]
    case p => [p.byte]
  }

  // ----- the condition -----

  /** While both calls are under way the indices differ. */
  predicate Calm(s: State) {
    s.producer.PIdle? || s.consumer.CDone? || s.cells.at.read != s.cells.at.write
  }

  predicate AlwaysCalm(s: State, actions: seq<Action>)
    requires Shape(s)
    decreases |actions|
  {
    Calm(s) && (actions == [] || AlwaysCalm(Act(s, actions[0]), actions[1..]))
  }

  // ----- the invariant -----

  /** The push has moved the read index and not yet the write index. */
  predicate Ahead(p: Producer) {
    (p.PAdvance? || p.PBump?) && p.overwrote
  }

  /** The push has stored its byte and not yet taken effect. */
  predicate InHand(p: Producer) {
    p.PCompare? || p.PSame? || p.POverwrite? || p.POverwriting? || ((p.PAdvance? || p.PBump?) && !p.overwrote)
  }

  /** How many bytes the indices show. */
  function Shown(s: State, items: seq<Byte>): int {
    if Ahead(s.producer) then |items| - 1 else |items|
  }

  ghost predicate Contents(s: State, head: nat, items: seq<Byte>)
    requires Shape(s)
  {
    && 0 <= Shown(s, items) && |items| <= s.size
    && s.cells.at.read == Mod(head, s.size)
    && s.cells.at.write == Mod(head + Shown(s, items), s.size)
    && if InHand(s.producer)
       then Holds(s.cells.bytes, FirstAfterPush(s.size, head, |items|),
                  After(s.size, items, PushByte(s.producer.byte)), s.size)
       else Holds(s.cells.bytes, head, items, s.size)
  }

  ghost predicate FlagKept(s: State, items: seq<Byte>) {
    if s.producer.PFlag? then items != []
    else if s.consumer.CCompare? || s.consumer.CFlag? then !s.cells.at.isEmpty
    else s.cells.at.isEmpty <==> items == []
  }

  ghost predicate ProducerKept(p: Producer, at: Indices, n: nat, size: nat) {
    match p
    case PSlot(_, w) => w == at.write
    case PCompare(_, got) =>
      (got.GotRead? ==> (got.index == at.write <==> at.read == at.write)) && (got.GotWrite? ==> got.index == at.write)
    case PSame(_) => at.read == at.write
    case POverwrite(_) => n == size
    case POverwriting(_, r) => n == size && r == at.read
    case PAdvance(_, overwrote) => overwrote || n < size
    case PBump(_, w, overwrote) => w == at.write && (overwrote || n < size)
    case _ => true
  }

  ghost predicate ConsumerKept(k: Consumer, at: Indices, shown: int, items: seq<Byte>, size: nat) {
    var same := at.read == at.write;
    match k
    case CCount(test, got) =>
      && (got.GotRead? ==> got.index == at.read)
      && (got.GotWrite? ==> got.index < size && (got.index == at.read <==> same))
      && (got.GotWrite? && got.index <= at.read ==> at.write <= at.read)
      && (test == Difference || test == Complement ==> !same)
      && (test == Below || test == Complement ==> at.write <= at.read && (got.GotWrite? ==> got.index <= at.read))
    case CEqual => same
    case CTake => shown >= 1
    case CSlot(r) => shown >= 1 && r == at.read
    case CByte(x) => shown >= 1 && |items| >= 1 && x == items[0]
    case CBump(x, r) => shown >= 1 && |items| >= 1 && x == items[0] && r == at.read
    case CCompare(_, got) =>
      && shown < size && (got.GotRead? ==> got.index == at.read)
      && (got.GotWrite? ==> (got.index == at.read <==> same))
    case CFlag(_, empty) => shown < size && (empty <==> same)
    case CDone(_) => true
  }

  ghost predicate Inv(s: State, head: nat, items: seq<Byte>) {
    && Shape(s) && Contents(s, head, items) && FlagKept(s, items)
    && ProducerKept(s.producer, s.cells.at, |items|, s.size)
    && ConsumerKept(s.consumer, s.cells.at, Shown(s, items), items, s.size)
  }

  lemma SameIff(s: State, head: nat, items: seq<Byte>)
    requires Shape(s) && Contents(s, head, items)
    ensures s.cells.at.read == s.cells.at.write <==> Shown(s, items) == 0 || Shown(s, items) == s.size
  {
    IndexDistance(head, Shown(s, items), s.size);
  }

  function NextHead(s: State, head: nat, items: seq<Byte>, op: Op): nat {
    match op
    case PushByte(_) => FirstAfterPush(s.size, head, |items|)
    case _ => if items == [] then head else head + 1
  }

  lemma PushTakesEffect(s: State, head: nat, items: seq<Byte>, readFirst: bool)
    requires Inv(s, head, items) && Calm(s)
    requires s.producer.POverwriting? || (s.producer.PBump? && !s.producer.overwrote)
    requires Calm(ProducerStep(s, readFirst))
    ensures var push := PushByte(s.producer.byte);
            Inv(ProducerStep(s, readFirst), NextHead(s, head, items, push), After(s.size, items, push))
  {
    hide Mod, Holds;
    var t, b := ProducerStep(s, readFirst), s.producer.byte;
    var next := After(s.size, items, PushByte(b));
    SameIff(s, head, items);
    LengthAfterPush(s.size, head, items, b);
    assert |items| < s.size ==> next == items + [b];
    ModAbsorbs(head, 1, s.size);
    ModAbsorbs(head + |items|, 1, s.size);
    assert Contents(t, NextHead(s, head, items, PushByte(b)), next);
    SameIff(t, NextHead(s, head, items, PushByte(b)), next);
    StepAround(s.cells.at.write, s.size);
  }

  lemma PublishAfterOverwrite(s: State, head: nat, items: seq<Byte>, readFirst: bool)
    requires Inv(s, head, items) && Calm(s) && s.producer.PBump? && s.producer.overwrote
    requires Calm(ProducerStep(s, readFirst))
    ensures Inv(ProducerStep(s, readFirst), head, items)
  {
    hide Mod, Holds, After;
    SameIff(s, head, items);
    ModAbsorbs(head + |items| - 1, 1, s.size);
    StepAround(s.producer.write, s.size);
    SameIff(ProducerStep(s, readFirst), head, items);
  }

  lemma ProducerMovesOn(s: State, head: nat, items: seq<Byte>, readFirst: bool)
    requires Inv(s, head, items) && Calm(s) && Effect(s, Take(Produce(readFirst))) == []
    requires Calm(ProducerStep(s, readFirst))
    ensures Inv(ProducerStep(s, readFirst), head, items)
  {
    hide Mod, Holds, After;
    if s.producer.PBump? {
      PublishAfterOverwrite(s, head, items, readFirst);
    } else {
      if s.producer.PSlot? {
        HoldsPush(s.cells.bytes, head, items, s.size, s.producer.byte);
      }
      SameIff(s, head, items);
      assert Contents(ProducerStep(s, readFirst), head, items);
    }
  }

  lemma PopTakesEffect(s: State, head: nat, items: seq<Byte>, readFirst: bool)
    requires Inv(s, head, items) && Calm(s) && s.consumer.CBump?
    requires Calm(ConsumerStep(s, readFirst))
    ensures items != [] && s.consumer.byte == items[0]
    ensures Inv(ConsumerStep(s, readFirst), head + 1, items[1..])
  {
    hide Mod, Holds;
    var t := ConsumerStep(s, readFirst);
    SameIff(s, head, items);
    ModAbsorbs(head, 1, s.size);
    if InHand(s.producer) {
      var b := s.producer.byte;
      assert |items| < s.size;
      assert (items + [b])[1..] == items[1..] + [b];
      HoldsTail(s.cells.bytes, head, items + [b], s.size);
    } else {
      HoldsTail(s.cells.bytes, head, items, s.size);
    }
    assert Contents(t, head + 1, items[1..]);
    SameIff(t, head + 1, items[1..]);
  }

  lemma OldestAtRead(s: State, head: nat, items: seq<Byte>)
    requires Inv(s, head, items) && Calm(s) && !s.consumer.CDone? && Shown(s, items) >= 1
    ensures s.cells.bytes[s.cells.at.read] == items[0]
  {
    hide Mod, Holds;
    SameIff(s, head, items);
    if InHand(s.producer) {
      assert (items + [s.producer.byte])[0] == items[0];
      HoldsTail(s.cells.bytes, head, items + [s.producer.byte], s.size);
    } else {
      HoldsTail(s.cells.bytes, head, items, s.size);
    }
  }

  lemma CountMovesOn(s: State, head: nat, items: seq<Byte>, readFirst: bool)
    requires Inv(s, head, items) && Calm(s) && s.consumer.CCount?
    ensures var k := ConsumerStep(s, readFirst).consumer;
            ConsumerKept(k, s.cells.at, Shown(s, items), items, s.size) && (k.CCount? || k.CEqual? || k.CTake?)
  {
    hide Mod, Holds, After, Wrap, WrapSub, Modulus;
    SameIff(s, head, items);
    var got, at := s.consumer.got, s.cells.at;
    if !got.Neither? {
      DecideNonEmpty(s.consumer.test, WriteOperand(got, at), ReadOperand(got, at), s.size);
    }
  }

  lemma ConsumerMovesOn(s: State, head: nat, items: seq<Byte>, readFirst: bool)
    requires Inv(s, head, items) && Calm(s) && !s.consumer.CBump?
    requires Calm(ConsumerStep(s, readFirst))
    ensures Inv(ConsumerStep(s, readFirst), head, items)
    ensures ConsumerStep(s, readFirst).consumer == CDone(None) && !s.consumer.CDone? ==> items == []
  {
    hide Mod, Holds, After, Decide;
    SameIff(s, head, items);
    assert Contents(ConsumerStep(s, readFirst), head, items);
    if s.consumer.CCount? {
      CountMovesOn(s, head, items, readFirst);
    } else if s.consumer.CSlot? {
      OldestAtRead(s, head, items);
    }
  }

  // ----- whole runs -----

  lemma BeginKeepsInv(s: State, head: nat, items: seq<Byte>, a: Action)
    requires Inv(s, head, items) && !a.Take?
    ensures Inv(Act(s, a), head, items)
  {
    hide Mod, Holds, After;
  }

  /** An action keeps the invariant, its effect counted in, and the pop it answers is answered
      as the reference queue does. */
  ghost predicate Tracks(s: State, head: nat, items: seq<Byte>, a: Action)
    requires Shape(s)
  {
    var e := Effect(s, a);
    && Inv(Act(s, a), if e == [] then head else NextHead(s, head, items, e[0]), RunAfter(s.size, items, e))
    && Reply(s, a) + Promised(Act(s, a)) == Promised(s) + PopReplies(Replies(s.size, items, e))
  }

  lemma ProducerTracks(s: State, head: nat, items: seq<Byte>, readFirst: bool)
    requires Shape(s) && Inv(s, head, items) && Calm(s) && Calm(ProducerStep(s, readFirst))
    ensures Tracks(s, head, items, Take(Produce(readFirst)))
  {
    hide Inv, After;
    var e := Effect(s, Take(Produce(readFirst)));
    if e == [] {
      ProducerMovesOn(s, head, items, readFirst);
    } else {
      PushTakesEffect(s, head, items, readFirst);
      RunOfOne(s.size, items, e[0]);
    }
  }

  lemma ConsumerTracks(s: State, head: nat, items: seq<Byte>, readFirst: bool)
    requires Shape(s) && Inv(s, head, items) && Calm(s) && Calm(ConsumerStep(s, readFirst))
    ensures Tracks(s, head, items, Take(Consume(readFirst)))
  {
    hide Inv, Decide, Mod;
    var e := Effect(s, Take(Consume(readFirst)));
    if s.consumer.CBump? {
      PopTakesEffect(s, head, items, readFirst);
    } else {
      ConsumerMovesOn(s, head, items, readFirst);
      if s.consumer.CCount? {
        CountMovesOn(s, head, items, readFirst);
      }
    }
    if e != [] {
      RunOfOne(s.size, items, PopByte);
    }
  }

  lemma ActTracks(s: State, head: nat, items: seq<Byte>, a: Action)
    requires Shape(s) && Inv(s, head, items) && Calm(s) && Calm(Act(s, a))
    ensures Tracks(s, head, items, a)
  {
    hide Inv, After;
    match a {
      case BeginPush(b) => BeginKeepsInv(s, head, items, a);
      case BeginPop => BeginKeepsInv(s, head, items, a);
      case Take(Produce(readFirst)) => ProducerTracks(s, head, items, readFirst);
      case Take(Consume(readFirst)) => ConsumerTracks(s, head, items, readFirst);
    }
  }

  lemma {:induction false} RunTracks(s: State, head: nat, items: seq<Byte>, actions: seq<Action>) returns (last: nat)
    requires Shape(s) && Inv(s, head, items) && AlwaysCalm(s, actions)
    ensures var t, log := Run(s, actions), Effects(s, actions);
            && Inv(t, last, RunAfter(s.size, items, log))
            && Answers(s, actions) + Promised(t) == Promised(s) + PopReplies(Replies(s.size, items, log))
    decreases |actions|
  {
    hide Inv, After, Effect, Reply, Act, Promised, NextHead, Calm;
    last := head;
    if actions != [] {
      hide RunAfter, Replies, PopReplies;
      var a, rest := actions[0], actions[1..];
      var t, e := Act(s, a), Effect(s, a);
      ActTracks(s, head, items, a);
      var next := if e == [] then head else NextHead(s, head, items, e[0]);
      var middle := RunAfter(s.size, items, e);
      last := RunTracks(t, next, middle, rest);
      var log, u := Effects(t, rest), Run(t, rest);
      assert Effects(s, actions) == e + log && Run(s, actions) == u;
      RunSplits(s.size, items, e, log);
      JoinAnswers(Promised(s), Reply(s, a), Promised(t), Answers(t, rest), Promised(u),
                  PopReplies(Replies(s.size, items, e)), PopReplies(Replies(s.size, middle, log)));
    }
  }

  lemma PushTakesEffectOnce(s: State, a: Action)
    requires Shape(s)
    ensures PushedBytes(Effect(s, a)) + Awaited(Act(s, a)) == Awaited(s) + NewPush(s, a)
  {
    hide Mod, Decide;
  }

  lemma {:induction false} PushesTakeEffectOnce(s: State, actions: seq<Action>)
    requires Shape(s)
    ensures PushedBytes(Effects(s, actions)) + Awaited(Run(s, actions)) == Awaited(s) + Begun(s, actions)
    decreases |actions|
  {
    if actions != [] {
      hide Act, Effect, Awaited, NewPush;
      var a, rest := actions[0], actions[1..];
      var t, e := Act(s, a), Effect(s, a);
      PushTakesEffectOnce(s, a);
      PushesTakeEffectOnce(t, rest);
      PushedBytesSplit(e, Effects(t, rest));
      JoinAnswers(Awaited(s), PushedBytes(e), Awaited(t), PushedBytes(Effects(t, rest)), Awaited(Run(t, rest)),
                  NewPush(s, a), Begun(t, rest));
    }
  }

  function Fresh(buffer: seq<Byte>, size: Size): (s: State)
    requires 0 < size <= |buffer|
    ensures Shape(s)
  {
    State(size, Cells(buffer, Indices(0, 0, true)), PIdle, CDone(None))
  }

  /** At rest, the fields stand for `items`. */
  ghost predicate RestsWith(s: State, items: seq<Byte>) {
    exists head: nat ::
      && Holds(s.cells.bytes, head, items, s.size)
      && s.cells.at == Indices(Mod(head, s.size), Mod(head + |items|, s.size), items == [])
  }

  /** Every interleaving in which the indices differ whenever both calls are under way is a run
      of the reference queue, each call taking effect once, at one of its own steps: every pop
      is answered as the queue answers it, full ring and dropped bytes included, and at rest
      the ring holds what the queue holds. */
  lemma CalmRunsAreQueueRuns(buffer: seq<Byte>, size: Size, actions: seq<Action>)
    requires 0 < size <= |buffer| && AlwaysCalm(Fresh(buffer, size), actions)
    ensures var f := Fresh(buffer, size);
            var t, log := Run(f, actions), Effects(f, actions);
            && Answers(f, actions) + Promised(t) == PopReplies(Replies(size, [], log))
            && PushedBytes(log) + Awaited(t) == Begun(f, actions)
            && (Over(t) ==> RestsWith(t, RunAfter(size, [], log)))
  {
    hide After, Act, RunAfter, Replies, Effect, Reply;
    var f := Fresh(buffer, size);
    assert Inv(f, 0, []);
    var head := RunTracks(f, 0, [], actions);
    PushesTakeEffectOnce(f, actions);
    assert Promised(f) == [] && Awaited(f) == [];
    assert Awaited(f) + Begun(f, actions) == Begun(f, actions);
  }
}
