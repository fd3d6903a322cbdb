/** One producer and one consumer on the plain ring, every load and store of a shared field a
    step of its own, interleaved in any order (sequentially consistent memory).

    The two loads of a comparison or a subtraction may come in either order. */
module PlainSpsc {
  import opened Foundations
  import opened DropOldest
  import opened CircularBuffer

  /** Which of the two indices has been loaded, and what it was. */
  datatype Loads = Neither | GotRead(index: Size) | GotWrite(index: Size)

  /** How far a push has come; `overwrote` notes that it moved the read index. */
  datatype Producer =
    | PIdle
    | PBegun(byte: Byte)
    | PSlot(byte: Byte, write: Size)
    | PCompare(byte: Byte, got: Loads)
    | PSame(byte: Byte)
    | POverwrite(byte: Byte)
    | POverwriting(byte: Byte, read: Size)
    | PAdvance(byte: Byte, overwrote: bool)
    | PBump(byte: Byte, write: Size, overwrote: bool)
    | PFlag

  /** The comparisons and differences from which a pop learns whether the ring is empty. */
  datatype Test = Above | Difference | Below | Complement

  /** How far a pop has come; when done, what it took. */
  datatype Consumer =
    | CDone(taken: Option<Byte>)
    | CCount(test: Test, got: Loads)
    | CEqual
    | CTake
    | CSlot(read: Size)
    | CByte(byte: Byte)
    | CBump(byte: Byte, read: Size)
    | CCompare(byte: Byte, got: Loads)
    | CFlag(byte: Byte, empty: bool)

  datatype State = State(size: Size, cells: Cells, producer: Producer, consumer: Consumer)

  predicate Shape(s: State) {
    && 0 < s.size <= |s.cells.bytes| && s.cells.at.read < s.size && s.cells.at.write < s.size
    && (s.producer.PSlot? ==> s.producer.write < s.size)
    && (s.consumer.CSlot? ==> s.consumer.read < s.size)
  }

  // ----- the steps -----

  function FirstLoad(i: Indices, readFirst: bool): Loads
    requires IsSize(i.read) && IsSize(i.write)
  {
    if readFirst then GotRead(i.read) else GotWrite(i.write)
  }

  /** The two operands once the second load is done. */
  function ReadOperand(got: Loads, i: Indices): nat {
    if got.GotRead? then got.index else i.read
  }

  function WriteOperand(got: Loads, i: Indices): nat {
    if got.GotWrite? then got.index else i.write
  }

  function ProducerStep(s: State, readFirst: bool): (t: State)
    requires Shape(s)
    ensures Shape(t)
  {
    var at := s.cells.at;
    match s.producer
    case PIdle => s
    case PBegun(b) => s.(producer := PSlot(b, at.write))
    case PSlot(b, w) => s.(cells := s.cells.(bytes := s.cells.bytes[w := b]), producer := PCompare(b, Neither))
    case PCompare(b, got) =>
      if got.Neither? then s.(producer := PCompare(b, FirstLoad(at, readFirst)))
      else s.(producer := if WriteOperand(got, at) == ReadOperand(got, at) then PSame(b) else PAdvance(b, false))
    case PSame(b) => s.(producer := if at.isEmpty then PAdvance(b, false) else POverwrite(b))
    case POverwrite(b) => s.(producer := POverwriting(b, at.read))
    case POverwriting(b, r) =>
      s.(cells := s.cells.(at := at.(read := Mod(r + 1, s.size))), producer := PAdvance(b, true))
    case PAdvance(b, o) => s.(producer := PBump(b, at.write, o))
    case PBump(b, w, _) =>
      s.(cells := s.cells.(at := at.(write := Mod(w + 1, s.size))), producer := PFlag)
    case PFlag => s.(cells := s.cells.(at := at.(isEmpty := false)), producer := PIdle)
  }

  /** Where a test of the count leads, given its operands. */
  function Decide(test: Test, write: Size, read: Size, size: Size): Consumer {
    match test
    case Above => CCount(if write > read then Difference else Below, Neither)
    case Difference => if WrapSub(write, read) == 0 then CDone(None) else CTake
    case Below => if write < read then CCount(Complement, Neither) else CEqual
    case Complement => if Wrap(WrapSub(size, read) + write) == 0 then CDone(None) else CTake
  }

  function ConsumerStep(s: State, readFirst: bool): (t: State)
    requires Shape(s)
    ensures Shape(t)
  {
    var at := s.cells.at;
    match s.consumer
    case CDone(_) => s
    case CCount(test, got) =>
      s.(consumer := if got.Neither? then CCount(test, FirstLoad(at, readFirst))
                     else Decide(test, WriteOperand(got, at), ReadOperand(got, at), s.size))
    case CEqual => s.(consumer := if at.isEmpty then CDone(None) else CTake)
    case CTake => s.(consumer := CSlot(at.read))
    case CSlot(r) => s.(consumer := CByte(s.cells.bytes[r]))
    case CByte(x) => s.(consumer := CBump(x, at.read))
    case CBump(x, r) =>
      s.(cells := s.cells.(at := at.(read := Mod(r + 1, s.size))), consumer := CCompare(x, Neither))
    case CCompare(x, got) =>
      s.(consumer := if got.Neither? then CCompare(x, FirstLoad(at, readFirst))
                     else CFlag(x, ReadOperand(got, at) == WriteOperand(got, at)))
    case CFlag(x, empty) => s.(cells := s.cells.(at := at.(isEmpty := empty)), consumer := CDone(Some(x)))
  }

  datatype Turn = Produce(readFirst: bool) | Consume(readFirst: bool)

  function Step(s: State, t: Turn): (u: State)
    requires Shape(s)
    ensures Shape(u) && u.size == s.size
  {
    match t
    case Produce(readFirst) => ProducerStep(s, readFirst)
    case Consume(readFirst) => ConsumerStep(s, readFirst)
  }

  function Interleave(s: State, turns: seq<Turn>): (t: State)
    requires Shape(s)
    ensures Shape(t) && t.size == s.size
    decreases |turns|
  {
    if turns == [] then s else Interleave(Step(s, turns[0]), turns[1..])
  }

  // ----- one push and one pop -----

  /** Both calls begun, neither with a load or store behind it. */
  function Both(c: Cells, b: Byte, size: Size): (s: State)
    requires Proper(c, size)
    ensures Shape(s)
  {
    State(size, c, PBegun(b), CCount(Above, Neither))
  }

  predicate Over(s: State) {
    s.producer.PIdle? && s.consumer.CDone?
  }

  /** However the two calls are interleaved, they end as if run one after the other. */
  ghost predicate AllInterleavingsSafe(c: Cells, b: Byte, size: Size)
    requires Proper(c, size)
  {
    forall turns: seq<Turn> ::
      var s := Interleave(Both(c, b, size), turns);
      Over(s) ==> AsInSomeOrder(Outcome(s.cells, s.consumer.taken), c, b, size)
  }

  predicate Stored(p: Producer) {
    !p.PBegun? && !p.PSlot?
  }

  predicate Bumped(p: Producer) {
    p.PFlag? || p.PIdle?
  }

  predicate Moved(k: Consumer) {
    k.CCompare? || k.CFlag? || k.CDone?
  }

  function Around(x: nat, size: nat): nat {
    if x + 1 == size then 0 else x + 1
  }

  /** With room for both calls, neither disturbs what the other has loaded. */
  ghost predicate FieldsApart(s: State, c: Cells, b: Byte)
    requires Proper(c, s.size)
  {
    && s.cells.bytes == (if Stored(s.producer) then c.bytes[c.at.write := b] else c.bytes)
    && s.cells.at.read == (if Moved(s.consumer) then Around(c.at.read, s.size) else c.at.read)
    && s.cells.at.write == (if Bumped(s.producer) then Around(c.at.write, s.size) else c.at.write)
    && !s.cells.at.isEmpty
  }

  ghost predicate ProducerApart(p: Producer, w: nat, b: Byte) {
    match p
    case PBegun(x) => x == b
    case PSlot(x, i) => x == b && i == w
    case PCompare(_, got) => (got.GotRead? ==> got.index != w) && (got.GotWrite? ==> got.index == w)
    case PBump(_, i, _) => i == w
    case _ => !p.PSame? && !p.POverwrite? && !p.POverwriting?
  }

  ghost predicate ConsumerApart(k: Consumer, c: Cells, write: nat, size: nat)
    requires Proper(c, size)
  {
    var r, w, w1 := c.at.read, c.at.write, Around(c.at.write, size);
    match k
    case CCount(test, got) =>
      && (got.GotRead? ==> got.index == r)
      && (got.GotWrite? ==> got.index == w || got.index == write)
      && (test == Difference ==> w1 != r)
      && (test == Complement ==> write <= r && (got.GotWrite? ==> got.index <= r))
    case CEqual => true
    case CTake => true
    case CSlot(i) => i == r
    case CByte(x) => x == c.bytes[r]
    case CBump(x, i) => x == c.bytes[r] && i == r
    case CCompare(x, got) =>
      && x == c.bytes[r] && (got.GotRead? ==> got.index == Around(r, size))
      && (got.GotWrite? ==> got.index == w || got.index == w1)
    case CFlag(x, empty) => x == c.bytes[r] && !empty
    case CDone(taken) => taken == Some(c.bytes[r])
  }

  ghost predicate Apart(s: State, c: Cells, b: Byte)
    requires Proper(c, s.size)
  {
    && FieldsApart(s, c, b) && ProducerApart(s.producer, c.at.write, b)
    && ConsumerApart(s.consumer, c, s.cells.at.write, s.size)
  }

  ghost predicate Roomy(c: Cells, size: nat)
    requires Proper(c, size)
  {
    1 < CountOf(c.at, size) < size && !(c.at.read == 0 && c.at.write == size - 1)
  }

  lemma DecideNonEmpty(test: Test, write: Size, read: Size, size: Size)
    requires read < size && write < size
    requires test == Difference ==> write != read
    requires test == Complement ==> write <= read
    ensures Decide(test, write, read, size) != CDone(None)
  {
    if test == Difference && write < read {
      assert write + Modulus() - read < Modulus();
    }
  }

  lemma ProducerKeepsApart(s: State, c: Cells, b: Byte, readFirst: bool)
    requires Shape(s) && Proper(c, s.size) && Roomy(c, s.size) && Apart(s, c, b)
    ensures Apart(ProducerStep(s, readFirst), c, b)
  {
    hide Mod;
    StepAround(c.at.write, s.size);
    assert ConsumerApart(s.consumer, c, ProducerStep(s, readFirst).cells.at.write, s.size);
  }

  lemma CountKeepsApart(s: State, c: Cells, b: Byte)
    requires Shape(s) && Proper(c, s.size) && Roomy(c, s.size) && Apart(s, c, b)
    requires s.consumer.CCount? && !s.consumer.got.Neither?
    ensures var got, at := s.consumer.got, s.cells.at;
            var k := Decide(s.consumer.test, WriteOperand(got, at), ReadOperand(got, at), s.size);
            ConsumerApart(k, c, at.write, s.size) && (k.CCount? || k.CEqual? || k.CTake?)
  {
    hide Mod, Wrap, WrapSub, Modulus;
    var got, at := s.consumer.got, s.cells.at;
    DecideNonEmpty(s.consumer.test, WriteOperand(got, at), ReadOperand(got, at), s.size);
  }

  lemma ConsumerKeepsApart(s: State, c: Cells, b: Byte, readFirst: bool)
    requires Shape(s) && Proper(c, s.size) && Roomy(c, s.size) && Apart(s, c, b)
    ensures Apart(ConsumerStep(s, readFirst), c, b)
  {
    hide Mod, Decide;
    StepAround(c.at.read, s.size);
    if s.consumer.CCount? && !s.consumer.got.Neither? {
      CountKeepsApart(s, c, b);
    }
  }

  /** On a ring of one byte both indices stay at 0, and the flag alone tells the order. */
  ghost predicate Lone(s: State, c: Cells, b: Byte)
    requires Proper(c, s.size)
  {
    var p, k, at := s.producer, s.consumer, s.cells.at;
    && s.cells.bytes == (if Stored(p) then c.bytes[0 := b] else c.bytes)
    && at.read == at.write == 0
    && (p.PBegun? || p.PSlot? ==> p.byte == b)
    && (p.PSlot? ==> p.write == 0)
    && (p.PCompare? && !p.got.Neither? ==> p.got.index == 0)
    && (k.CCount? ==> !k.test.Difference? && !k.test.Complement? && (!k.got.Neither? ==> k.got.index == 0))
    && (k.CSlot? ==> k.read == 0)
    && (k.CByte? || k.CBump? || k.CCompare? || k.CFlag? ==> k.byte == b)
    && (k.CCompare? && !k.got.Neither? ==> k.got.index == 0)
    && (k.CFlag? ==> k.empty)
    && (k.CDone? ==> k.taken == None || k.taken == Some(b))
    && if c.at.isEmpty then
         && at.isEmpty == (!p.PIdle? || (k.CDone? && k.taken.Some?))
         && (k.CCount? || k.CEqual? || k == CDone(None) || p.PIdle?)
       else k != CDone(None) && (at.isEmpty ==> k.CDone?)
  }

  lemma StepKeepsLone(s: State, c: Cells, b: Byte, t: Turn)
    requires Shape(s) && Proper(c, s.size) && s.size == 1 && (c.at.isEmpty || c.bytes[0] == b)
    requires Lone(s, c, b)
    ensures Lone(Step(s, t), c, b)
  {
  }

  ghost predicate Safe(c: Cells, b: Byte, size: nat)
    requires Proper(c, size)
  {
    Roomy(c, size) || (size == 1 && (c.at.isEmpty || c.bytes[0] == b))
  }

  lemma {:induction false} InterleaveKeepsApart(s: State, c: Cells, b: Byte, turns: seq<Turn>)
    requires Shape(s) && Proper(c, s.size) && Roomy(c, s.size) && Apart(s, c, b)
    ensures Apart(Interleave(s, turns), c, b)
    decreases |turns|
  {
    if turns != [] {
      match turns[0] {
        case Produce(readFirst) => ProducerKeepsApart(s, c, b, readFirst);
        case Consume(readFirst) => ConsumerKeepsApart(s, c, b, readFirst);
      }
      InterleaveKeepsApart(Step(s, turns[0]), c, b, turns[1..]);
    }
  }

  lemma {:induction false} InterleaveKeepsLone(s: State, c: Cells, b: Byte, turns: seq<Turn>)
    requires Shape(s) && Proper(c, s.size) && s.size == 1 && (c.at.isEmpty || c.bytes[0] == b)
    requires Lone(s, c, b)
    ensures Lone(Interleave(s, turns), c, b)
    decreases |turns|
  {
    if turns != [] {
      StepKeepsLone(s, c, b, turns[0]);
      InterleaveKeepsLone(Step(s, turns[0]), c, b, turns[1..]);
    }
  }

  lemma ApartEndsInOrder(s: State, c: Cells, b: Byte)
    requires Shape(s) && Proper(c, s.size) && Roomy(c, s.size) && Apart(s, c, b) && Over(s)
    ensures Outcome(s.cells, s.consumer.taken) == PopThenPush(c, b, s.size)
  {
    hide Mod;
    StepAround(c.at.read, s.size);
    StepAround(c.at.write, s.size);
  }

  lemma LoneEndsInOrder(s: State, c: Cells, b: Byte)
    requires Shape(s) && Proper(c, s.size) && s.size == 1 && (c.at.isEmpty || c.bytes[0] == b)
    requires Lone(s, c, b) && Over(s)
    ensures AsInSomeOrder(Outcome(s.cells, s.consumer.taken), c, b, s.size)
  {
  }

  lemma SafeSuffices(c: Cells, b: Byte, size: Size)
    requires Proper(c, size) && Safe(c, b, size)
    ensures AllInterleavingsSafe(c, b, size)
  {
    hide Interleave, PopThenPush, PushThenPop, Mod;
    forall turns: seq<Turn> | Over(Interleave(Both(c, b, size), turns))
      ensures var s := Interleave(Both(c, b, size), turns);
              AsInSomeOrder(Outcome(s.cells, s.consumer.taken), c, b, size)
    {
      var s := Interleave(Both(c, b, size), turns);
      if Roomy(c, size) {
        InterleaveKeepsApart(Both(c, b, size), c, b, turns);
        ApartEndsInOrder(s, c, b);
      } else {
        InterleaveKeepsLone(Both(c, b, size), c, b, turns);
        LoneEndsInOrder(s, c, b);
      }
    }
  }

  // ----- schedules that go wrong -----

  ghost predicate Reaches(s: State, t: State)
    requires Shape(s)
  {
    exists turns: seq<Turn> :: Interleave(s, turns) == t
  }

  lemma {:induction false} InterleaveLast(s: State, turns: seq<Turn>, t: Turn)
    requires Shape(s)
    ensures Interleave(s, turns + [t]) == Step(Interleave(s, turns), t)
    decreases |turns|
  {
    if turns == [] {
      assert turns + [t] == [t];
      assert Interleave(Step(s, t), [t][1..]) == Step(s, t);
    } else {
      InterleaveLast(Step(s, turns[0]), turns[1..], t);
      assert (turns + [t])[1..] == turns[1..] + [t];
    }
  }

  lemma Go(s: State, t: State, turn: Turn)
    requires Shape(s) && Shape(t) && Reaches(s, t)
    ensures Reaches(s, Step(t, turn))
  {
    var turns: seq<Turn> :| Interleave(s, turns) == t;
    InterleaveLast(s, turns, turn);
  }

  lemma ReachesItself(s: State)
    requires Shape(s)
    ensures Reaches(s, s)
  {
    assert Interleave(s, []) == s;
  }

  /** The steps of a push up to its comparison, from there to the write-index load, and on to
      the flag store, without a pop's step among them. */
  lemma PushReachesCompare(s: State, t: State, b: Byte)
    requires Shape(s) && Shape(t) && Reaches(s, t) && t.producer == PBegun(b)
    ensures Reaches(s, t.(cells := t.cells.(bytes := t.cells.bytes[t.cells.at.write := b]),
                          producer := PCompare(b, Neither)))
  {
    hide Mod, Interleave, Reaches;
    Go(s, t, Produce(false));
    Go(s, t.(producer := PSlot(b, t.cells.at.write)), Produce(false));
  }

  lemma CompareReachesAdvance(s: State, t: State, b: Byte)
    requires Shape(s) && Shape(t) && Reaches(s, t) && t.producer == PCompare(b, Neither)
    ensures var at := t.cells.at;
            Reaches(s, t.(cells := t.cells.(at := at.(read := PushStores(at, t.size).read)),
                          producer := PAdvance(b, at.write == at.read && !at.isEmpty)))
  {
    hide Mod, Interleave, Reaches;
    var go, at := Produce(false), t.cells.at;
    Go(s, t, go);
    Go(s, t.(producer := PCompare(b, GotWrite(at.write))), go);
    if at.write == at.read {
      Go(s, t.(producer := PSame(b)), go);
      if !at.isEmpty {
        Go(s, t.(producer := POverwrite(b)), go);
        Go(s, t.(producer := POverwriting(b, at.read)), go);
      }
    }
  }

  lemma PushReachesFlag(s: State, t: State, b: Byte)
    requires Shape(s) && Shape(t) && Reaches(s, t) && t.producer == PBegun(b)
    ensures var at := PushStores(t.cells.at, t.size).(isEmpty := t.cells.at.isEmpty);
            Reaches(s, t.(cells := Cells(t.cells.bytes[t.cells.at.write := b], at), producer := PFlag))
  {
    hide Mod, Interleave, Reaches;
    var go, at := Produce(false), t.cells.at;
    PushReachesCompare(s, t, b);
    var stored := t.cells.(bytes := t.cells.bytes[at.write := b]);
    CompareReachesAdvance(s, t.(cells := stored, producer := PCompare(b, Neither)), b);
    var full := at.write == at.read && !at.isEmpty;
    var u := t.(cells := stored.(at := at.(read := PushStores(at, t.size).read)), producer := PAdvance(b, full));
    Go(s, u, go);
    Go(s, u.(producer := PBump(b, at.write, full)), go);
  }

  lemma PushReachesEnd(s: State, t: State, b: Byte)
    requires Shape(s) && Shape(t) && Reaches(s, t) && t.producer == PBegun(b)
    ensures Reaches(s, t.(cells := Cells(t.cells.bytes[t.cells.at.write := b], PushStores(t.cells.at, t.size)),
                          producer := PIdle))
  {
    hide Mod, Interleave, Reaches;
    PushReachesFlag(s, t, b);
    var at: Indices := PushStores(t.cells.at, t.size).(isEmpty := t.cells.at.isEmpty);
    Go(s, t.(cells := Cells(t.cells.bytes[t.cells.at.write := b], at), producer := PFlag), Produce(false));
  }

  /** Both loads of a test of the count. */
  lemma TestReaches(s: State, t: State, test: Test)
    requires Shape(s) && Shape(t) && Reaches(s, t) && t.consumer == CCount(test, Neither)
    ensures Reaches(s, t.(consumer := Decide(test, t.cells.at.write, t.cells.at.read, t.size)))
  {
    hide Mod, Interleave, Reaches, Decide;
    Go(s, t, Consume(false));
    Go(s, Step(t, Consume(false)), Consume(false));
  }

  lemma CountReaches(s: State, t: State)
    requires Shape(s) && Shape(t) && Reaches(s, t) && t.consumer == CCount(Above, Neither)
    requires CountOf(t.cells.at, t.size) > 0
    ensures Reaches(s, t.(consumer := CTake))
  {
    hide Mod, Interleave, Reaches, Wrap, WrapSub, Modulus;
    var w: Size, r: Size := t.cells.at.write, t.cells.at.read;
    TestReaches(s, t, Above);
    if w > r {
      TestReaches(s, t.(consumer := CCount(Difference, Neither)), Difference);
    } else {
      TestReaches(s, t.(consumer := CCount(Below, Neither)), Below);
      if w < r {
        TestReaches(s, t.(consumer := CCount(Complement, Neither)), Complement);
        DecideNonEmpty(Complement, w, r, t.size);
      } else {
        Go(s, t.(consumer := CEqual), Consume(false));
      }
    }
  }

  lemma EmptyReaches(s: State, t: State)
    requires Shape(s) && Shape(t) && Reaches(s, t) && t.consumer == CCount(Above, Neither)
    requires CountOf(t.cells.at, t.size) == 0
    ensures Reaches(s, t.(consumer := CDone(None)))
  {
    hide Mod, Interleave, Reaches, Wrap, WrapSub, Modulus;
    TestReaches(s, t, Above);
    TestReaches(s, t.(consumer := CCount(Below, Neither)), Below);
    Go(s, t.(consumer := CEqual), Consume(false));
  }

  lemma TakeReaches(s: State, t: State)
    requires Shape(s) && Shape(t) && Reaches(s, t) && t.consumer == CTake
    ensures Reaches(s, t.(cells := t.cells.(at := PopStoresRead(t.cells.at, t.size)),
                          consumer := CCompare(t.cells.bytes[t.cells.at.read], Neither)))
  {
    hide Mod, Interleave, Reaches;
    var r, x, go := t.cells.at.read, t.cells.bytes[t.cells.at.read], Consume(false);
    Go(s, t, go);
    Go(s, t.(consumer := CSlot(r)), go);
    Go(s, t.(consumer := CByte(x)), go);
    Go(s, t.(consumer := CBump(x, r)), go);
  }

  lemma FlagReaches(s: State, t: State, x: Byte)
    requires Shape(s) && Shape(t) && Reaches(s, t) && t.consumer == CCompare(x, Neither)
    ensures Reaches(s, t.(cells := t.cells.(at := PopStoresFlag(t.cells.at)), consumer := CDone(Some(x))))
  {
    hide Mod, Interleave, Reaches;
    var go, at := Consume(false), t.cells.at;
    Go(s, t, go);
    Go(s, t.(consumer := CCompare(x, GotWrite(at.write))), go);
    Go(s, t.(consumer := CFlag(x, at.read == at.write)), go);
  }

  // The overlaps of `CircularBuffer` are among the interleavings.

  lemma ReachesPopInsidePush(c: Cells, b: Byte, size: Size)
    requires Proper(c, size)
    ensures var o := PopInsidePush(c, b, size);
            Reaches(Both(c, b, size), State(size, o.cells, PIdle, CDone(o.taken)))
  {
    hide Mod, Interleave, Reaches, Decide;
    var s := Both(c, b, size);
    ReachesItself(s);
    PushReachesFlag(s, s, b);
    var pushed := PushCall(c, b, size);
    var at: Indices := pushed.at.(isEmpty := c.at.isEmpty);
    var x := pushed.bytes[at.read];
    var p := State(size, pushed.(at := at), PFlag, CCount(Above, Neither));
    if CountOf(at, size) == 0 {
      EmptyReaches(s, p);
      Go(s, p.(consumer := CDone(None)), Produce(false));
    } else {
      CountReaches(s, p);
      TakeReaches(s, p.(consumer := CTake));
      var q := p.(cells := p.cells.(at := PopStoresRead(at, size)), consumer := CCompare(x, Neither));
      FlagReaches(s, q, x);
      Go(s, q.(cells := q.cells.(at := PopStoresFlag(q.cells.at)), consumer := CDone(Some(x))), Produce(false));
    }
  }

  lemma ReachesPushInsidePop(c: Cells, b: Byte, size: Size, compared: bool)
    requires Proper(c, size) && CountOf(c.at, size) >= 1
    ensures var o := PushInsidePop(c, b, size, compared);
            Reaches(Both(c, b, size), State(size, o.cells, PIdle, CDone(o.taken)))
  {
    hide Mod, Interleave, Reaches, Decide;
    var s, x, go := Both(c, b, size), c.bytes[c.at.read], Consume(false);
    ReachesItself(s);
    CountReaches(s, s);
    TakeReaches(s, s.(consumer := CTake));
    var at := PopStoresRead(c.at, size);
    var p := s.(cells := c.(at := at), consumer := CCompare(x, Neither));
    var pushed := Cells(c.bytes[c.at.write := b], PushStores(at, size));
    if compared {
      Go(s, p, go);
      Go(s, p.(consumer := CCompare(x, GotWrite(at.write))), go);
      var q := p.(consumer := CFlag(x, at.read == at.write));
      PushReachesEnd(s, q, b);
      Go(s, q.(cells := pushed, producer := PIdle), go);
    } else {
      PushReachesEnd(s, p, b);
      FlagReaches(s, p.(cells := pushed, producer := PIdle), x);
    }
  }

  lemma ReachesPushInsideCount(c: Cells, b: Byte, size: Size)
    requires Proper(c, size) && c.at.write > c.at.read
    ensures var o := PushInsideCount(c, b, size);
            Reaches(Both(c, b, size), State(size, o.cells, PIdle, CDone(o.taken)))
  {
    hide Mod, Interleave, Reaches, Wrap, WrapSub, Modulus;
    var s := Both(c, b, size);
    ReachesItself(s);
    TestReaches(s, s, Above);
    var p := s.(consumer := CCount(Difference, Neither));
    PushReachesEnd(s, p, b);
    var pushed := PushCall(c, b, size);
    var q := p.(cells := pushed, producer := PIdle);
    TestReaches(s, q, Difference);
    if pushed.at.write != pushed.at.read {
      DecideNonEmpty(Difference, pushed.at.write, pushed.at.read, size);
      TakeReaches(s, q.(consumer := CTake));
      var x := c.bytes[c.at.read];
      FlagReaches(s, q.(cells := pushed.(at := PopStoresRead(pushed.at, size)), consumer := CCompare(x, Neither)), x);
    }
  }

  lemma BadOutcome(c: Cells, b: Byte, size: Size, o: Outcome)
    requires Proper(c, size) && !AsInSomeOrder(o, c, b, size)
    requires Reaches(Both(c, b, size), State(size, o.cells, PIdle, CDone(o.taken)))
    ensures !AllInterleavingsSafe(c, b, size)
  {
    hide AsInSomeOrder;
    var turns: seq<Turn> :| Interleave(Both(c, b, size), turns) == State(size, o.cells, PIdle, CDone(o.taken));
    var s := Interleave(Both(c, b, size), turns);
    assert Outcome(s.cells, s.consumer.taken) == o;
  }

  /** A push and a pop end, whatever the order of their loads and stores, as if run one after
      the other, exactly when the ring holds more than one byte, is not full and does not
      occupy all slots but the last one, or when it can hold one byte only and is empty or
      given the byte it holds. */
  lemma AllInterleavingsSafeIff(c: Cells, b: Byte, size: Size)
    requires Proper(c, size)
    ensures AllInterleavingsSafe(c, b, size) <==>
              || (1 < CountOf(c.at, size) < size && !(c.at.read == 0 && c.at.write == size - 1))
              || (size == 1 && (CountOf(c.at, size) == 0 || b == c.bytes[c.at.read]))
  {
    hide AllInterleavingsSafe, AsInSomeOrder;
    var n := CountOf(c.at, size);
    if Safe(c, b, size) {
      SafeSuffices(c, b, size);
    } else if n == 0 {
      PopInsidePushIsSafeIff(c, b, size);
      ReachesPopInsidePush(c, b, size);
      BadOutcome(c, b, size, PopInsidePush(c, b, size));
    } else if 1 < n < size {
      PushInsideCountIsSafeIff(c, b, size);
      ReachesPushInsideCount(c, b, size);
      BadOutcome(c, b, size, PushInsideCount(c, b, size));
    } else {
      PushInsidePopIsSafeIff(c, b, size, false);
      ReachesPushInsidePop(c, b, size, false);
      BadOutcome(c, b, size, PushInsidePop(c, b, size, false));
    }
  }
}
