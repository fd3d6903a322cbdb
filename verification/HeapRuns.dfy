/** Whole runs of pushes and pops on one heap: what is conserved, when the order survives,
    and in which order a filled heap drains. */
module HeapRuns {
  import opened HeapOrder

  datatype Op<T> = DoPush(item: T) | DoPop

  /** A refused push or pop changes nothing. */
  function Step<T>(compare: Compare<T>, capacity: nat, s: seq<T>, op: Op<T>): seq<T> {
    match op
    case DoPush(x) => if |s| < capacity then Push(compare, s, x) else s
    case DoPop => if s == [] then s else PopRest(compare, s)
  }

  function Run<T>(compare: Compare<T>, capacity: nat, s: seq<T>, ops: seq<Op<T>>): seq<T>
    decreases |ops|
  {
    if ops == [] then s else Run(compare, capacity, Step(compare, capacity, s, ops[0]), ops[1..])
  }

  // ----- conservation -----

  function Accepted<T>(compare: Compare<T>, capacity: nat, s: seq<T>, ops: seq<Op<T>>): multiset<T>
    decreases |ops|
  {
    if ops == [] then multiset{} else
    (if ops[0].DoPush? && |s| < capacity then multiset{ops[0].item} else multiset{})
    + Accepted(compare, capacity, Step(compare, capacity, s, ops[0]), ops[1..])
  }

  function Returned<T>(compare: Compare<T>, capacity: nat, s: seq<T>, ops: seq<Op<T>>): multiset<T>
    decreases |ops|
  {
    if ops == [] then multiset{} else
    (if ops[0].DoPop? && s != [] then multiset{s[0]} else multiset{})
    + Returned(compare, capacity, Step(compare, capacity, s, ops[0]), ops[1..])
  }

  /** No run, ordered or not, loses, invents or duplicates an item. */
  lemma {:induction false} RunConserves<T>(compare: Compare<T>, capacity: nat, s: seq<T>, ops: seq<Op<T>>)
    ensures multiset(Run(compare, capacity, s, ops)) + Returned(compare, capacity, s, ops)
            == multiset(s) + Accepted(compare, capacity, s, ops)
    decreases |ops|
  {
    if ops != [] {
      var next := Step(compare, capacity, s, ops[0]);
      StepConserves(compare, capacity, s, ops[0]);
      RunConserves(compare, capacity, next, ops[1..]);
      var accepted := if ops[0].DoPush? && |s| < capacity then multiset{ops[0].item} else multiset{};
      var returned := if ops[0].DoPop? && s != [] then multiset{s[0]} else multiset{};
      var moreAccepted := Accepted(compare, capacity, next, ops[1..]);
      var moreReturned := Returned(compare, capacity, next, ops[1..]);
      calc {
        multiset(Run(compare, capacity, s, ops)) + (returned + moreReturned);
        (multiset(Run(compare, capacity, next, ops[1..])) + moreReturned) + returned;
        (multiset(next) + moreAccepted) + returned;
        (multiset(next) + returned) + moreAccepted;
        (multiset(s) + accepted) + moreAccepted;
        multiset(s) + (accepted + moreAccepted);
      }
    }
  }

  lemma StepConserves<T>(compare: Compare<T>, capacity: nat, s: seq<T>, op: Op<T>)
    ensures multiset(Step(compare, capacity, s, op))
            + (if op.DoPop? && s != [] then multiset{s[0]} else multiset{})
            == multiset(s) + (if op.DoPush? && |s| < capacity then multiset{op.item} else multiset{})
  {
    match op
    case DoPush(x) => PushAdds(compare, s, x);
    case DoPop => if s != [] { PopRemoves(compare, s); }
  }

  // ----- order -----

  ghost predicate StaysOrderedButLone<T>(compare: Compare<T>, capacity: nat, s: seq<T>, ops: seq<Op<T>>)
    decreases |ops|
  {
    OrderedButLone(compare, s) &&
    (ops == [] || StaysOrderedButLone(compare, capacity, Step(compare, capacity, s, ops[0]), ops[1..]))
  }

  /** Every accepted push of the run passes the caller's check of `SafePush`. */
  predicate PushesSafely<T>(compare: Compare<T>, capacity: nat, s: seq<T>, ops: seq<Op<T>>)
    decreases |ops|
  {
    ops == [] ||
    (&& (ops[0].DoPush? && |s| < capacity ==> SafePush(compare, s, ops[0].item))
     && PushesSafely(compare, capacity, Step(compare, capacity, s, ops[0]), ops[1..]))
  }

  /** Every pop of the run returns a top-ranked item, except from a pair in the wrong order. */
  ghost predicate PopsTop<T>(compare: Compare<T>, capacity: nat, s: seq<T>, ops: seq<Op<T>>)
    decreases |ops|
  {
    ops == [] ||
    (&& (ops[0].DoPop? && s != [] ==>
           (IsTop(compare, s, s[0]) <==> |s| != 2 || Over(compare, s[0], s[1])))
     && PopsTop(compare, capacity, Step(compare, capacity, s, ops[0]), ops[1..]))
  }

  /** A run keeps the order in every state it passes through exactly when all its pushes
      are safe, and then its pops return top-ranked items. */
  lemma {:induction false} RunOrderedIffPushesSafe<T(!new)>(
    compare: Compare<T>, capacity: nat, s: seq<T>, ops: seq<Op<T>>)
    requires StrictWeakOrder(compare) && OrderedButLone(compare, s)
    ensures StaysOrderedButLone(compare, capacity, s, ops) <==> PushesSafely(compare, capacity, s, ops)
    ensures PushesSafely(compare, capacity, s, ops) ==> PopsTop(compare, capacity, s, ops)
    decreases |ops|
  {
    if ops != [] {
      var next := Step(compare, capacity, s, ops[0]);
      match ops[0] {
        case DoPush(x) => PushOrderedIffSafe(compare, s, x);
        case DoPop =>
          if s != [] {
            PopKeepsOrderButLone(compare, s);
            PopIsTopIff(compare, s);
          }
      }
      if OrderedButLone(compare, next) {
        RunOrderedIffPushesSafe(compare, capacity, next, ops[1..]);
      } else {
        assert !StaysOrderedButLone(compare, capacity, next, ops[1..]);
      }
    }
  }

  /** Sizes alone: no push at an even non-zero size that a pop led to. */
  predicate NoPushAtPoppedEvenSize<T>(capacity: nat, size: nat, popped: bool, ops: seq<Op<T>>)
    decreases |ops|
  {
    ops == [] ||
    match ops[0]
    case DoPush(_) =>
      if size < capacity
      then !(popped && size > 0 && size % 2 == 0) &&
           NoPushAtPoppedEvenSize(capacity, size + 1, false, ops[1..])
      else NoPushAtPoppedEvenSize(capacity, size, popped, ops[1..])
    case DoPop =>
      if size > 0 then NoPushAtPoppedEvenSize(capacity, size - 1, true, ops[1..])
      else NoPushAtPoppedEvenSize(capacity, size, popped, ops[1..])
  }

  /** That restriction on sizes, which needs no look at the items, makes every push safe. */
  lemma {:induction false} SizesMakePushesSafe<T(!new)>(
    compare: Compare<T>, capacity: nat, s: seq<T>, popped: bool, ops: seq<Op<T>>)
    requires StrictWeakOrder(compare) && OrderedButLone(compare, s)
    requires !popped ==> Ordered(compare, s)
    requires NoPushAtPoppedEvenSize(capacity, |s|, popped, ops)
    ensures PushesSafely(compare, capacity, s, ops)
    decreases |ops|
  {
    if ops != [] {
      match ops[0] {
        case DoPush(x) =>
          if |s| < capacity {
            assert EndsInLoneChild(s) ==> Edge(compare, s, |s| - 1);
            PushOrderedIffSafe(compare, s, x);
            SizesMakePushesSafe(compare, capacity, Push(compare, s, x), false, ops[1..]);
          } else {
            SizesMakePushesSafe(compare, capacity, s, popped, ops[1..]);
          }
        case DoPop =>
          if s != [] {
            PopKeepsOrderButLone(compare, s);
            SizesMakePushesSafe(compare, capacity, PopRest(compare, s), true, ops[1..]);
          } else {
            SizesMakePushesSafe(compare, capacity, s, popped, ops[1..]);
          }
      }
    }
  }

  // ----- fill, then drain -----

  function Fill<T>(compare: Compare<T>, items: seq<T>): (s: seq<T>)
    ensures |s| == |items|
  {
    if items == [] then []
    else Push(compare, Fill(compare, items[..|items| - 1]), items[|items| - 1])
  }

  function Drain<T>(compare: Compare<T>, s: seq<T>): (out: seq<T>)
    ensures |out| == |s|
    decreases |s|
  {
    if s == [] then [] else [s[0]] + Drain(compare, PopRest(compare, s))
  }

  lemma {:induction false} FillIsOrdered<T(!new)>(compare: Compare<T>, items: seq<T>)
    requires StrictWeakOrder(compare)
    ensures Ordered(compare, Fill(compare, items))
    ensures multiset(Fill(compare, items)) == multiset(items)
  {
    if items != [] {
      var front, last := items[..|items| - 1], items[|items| - 1];
      FillIsOrdered(compare, front);
      PushKeepsOrder(compare, Fill(compare, front), last);
      PushAdds(compare, Fill(compare, front), last);
      assert items == front + [last];
    }
  }

  /** Each of the first `ranked` results ranks at or above everything after it. */
  ghost predicate Ranked<T>(compare: Compare<T>, out: seq<T>, ranked: int) {
    forall i, j | 0 <= i < j < |out| && i < ranked :: Over(compare, out[i], out[j])
  }

  /** Putting a top-ranked item in front keeps the rest as ranked as it was. */
  lemma RankedCons<T>(compare: Compare<T>, x: T, tail: seq<T>, ranked: int)
    requires IsTop(compare, tail, x) && ranked >= 0
    ensures Ranked(compare, [x] + tail, ranked + 1) <==> Ranked(compare, tail, ranked)
  {
    var out := [x] + tail;
    assert forall i | 0 <= i < |tail| :: tail[i] == out[i + 1];
    if Ranked(compare, tail, ranked) {
      forall i, j | 0 <= i < j < |out| && i < ranked + 1
        ensures Over(compare, out[i], out[j])
      {
        assert out[j] == tail[j - 1];
        assert i > 0 ==> Over(compare, tail[i - 1], tail[j - 1]);
      }
    }
  }

  lemma {:induction false} DrainPermutes<T>(compare: Compare<T>, s: seq<T>)
    ensures multiset(Drain(compare, s)) == multiset(s)
    decreases |s|
  {
    if s != [] {
      PopRemoves(compare, s);
      DrainPermutes(compare, PopRest(compare, s));
    }
  }

  /** What outranks a heap's items outranks everything that drains from it. */
  lemma TopOfDrain<T>(compare: Compare<T>, s: seq<T>, x: T)
    requires IsTop(compare, s, x)
    ensures IsTop(compare, Drain(compare, s), x)
  {
    DrainPermutes(compare, s);
    forall i | 0 <= i < |s|
      ensures Over(compare, x, Drain(compare, s)[i])
    {
      assert Drain(compare, s)[i] in multiset(s);
    }
  }

  lemma PopTopsRest<T(!new)>(compare: Compare<T>, s: seq<T>)
    requires StrictWeakOrder(compare) && OrderedButLone(compare, s) && s != [] && |s| != 2
    ensures IsTop(compare, Drain(compare, PopRest(compare, s)), s[0])
  {
    PopIsTopIff(compare, s);
    PopRemoves(compare, s);
    var rest := PopRest(compare, s);
    forall i | 0 <= i < |rest|
      ensures Over(compare, s[0], rest[i])
    {
      assert rest[i] in multiset(rest);
      assert rest[i] in multiset(s);
    }
    TopOfDrain(compare, rest, s[0]);
  }

  lemma {:induction false} DrainIsRanked<T(!new)>(compare: Compare<T>, s: seq<T>)
    requires StrictWeakOrder(compare) && OrderedButLone(compare, s)
    ensures Ranked(compare, Drain(compare, s), |s| - 2)
    decreases |s|
  {
    if |s| > 2 {
      PopKeepsOrderButLone(compare, s);
      DrainIsRanked(compare, PopRest(compare, s));
      PopTopsRest(compare, s);
      RankedCons(compare, s[0], Drain(compare, PopRest(compare, s)), |s| - 3);
    }
  }

  /** n pushes into a fresh heap, then n pops: a permutation of the items, in rank order
      up to the last two, which are the two lowest-ranked. */
  lemma FillThenDrain<T(!new)>(compare: Compare<T>, items: seq<T>)
    requires StrictWeakOrder(compare)
    ensures var out := Drain(compare, Fill(compare, items));
            && multiset(out) == multiset(items)
            && Ranked(compare, out, |items| - 2)
  {
    FillIsOrdered(compare, items);
    OrderedIsOrderedButLone(compare, Fill(compare, items));
    DrainPermutes(compare, Fill(compare, items));
    DrainIsRanked(compare, Fill(compare, items));
  }

  function PopMany<T>(compare: Compare<T>, s: seq<T>, n: nat): (r: seq<T>)
    requires n <= |s|
    ensures |r| == |s| - n
    decreases n
  {
    if n == 0 then s else PopMany(compare, PopRest(compare, s), n - 1)
  }

  /** The whole drain is in rank order exactly when, with three items left, the third
      ranks at or above the second. `PopIsTopIff` is the check to make before each pop. */
  lemma {:induction false} DrainFullyRankedIff<T(!new)>(compare: Compare<T>, s: seq<T>)
    requires StrictWeakOrder(compare) && OrderedButLone(compare, s) && |s| >= 3
    ensures var three := PopMany(compare, s, |s| - 3);
            Ranked(compare, Drain(compare, s), |s|) <==> Over(compare, three[2], three[1])
    decreases |s|
  {
    hide Ranked, IsTop, OrderedButLone;
    var rest := PopRest(compare, s);
    PopTopsRest(compare, s);
    RankedCons(compare, s[0], Drain(compare, rest), |s| - 1);
    if |s| == 3 {
      DrainOfPair(compare, s[2], s[1]);
      assert rest == [s[2], s[1]];
      assert PopMany(compare, s, 0) == s;
    } else {
      PopKeepsOrderButLone(compare, s);
      DrainFullyRankedIff(compare, rest);
    }
  }

  /** A pair comes out as it lies, whichever item ranks higher. */
  lemma DrainOfPair<T>(compare: Compare<T>, a: T, b: T)
    ensures Drain(compare, [a, b]) == [a, b]
    ensures Ranked(compare, [a, b], 2) <==> Over(compare, a, b)
  {
    assert PopRest(compare, [a, b]) == [b];
    assert PopRest(compare, [b]) == [];
    assert Drain(compare, [b]) == [b] + Drain(compare, []);
    assert [a, b][0] == a && [a, b][1] == b;
  }

  // ----- the order the tests expect, and where it fails -----

  predicate MaxHeapCompare(parent: int, child: int) {
    parent < child
  }

  /** Three items already come out as 3, 1, 2. */
  lemma DrainOutOfOrder()
    ensures StrictWeakOrder(MaxHeapCompare)
    ensures Drain(MaxHeapCompare, Fill(MaxHeapCompare, [3, 2, 1])) == [3, 1, 2]
  {
    var c := MaxHeapCompare;
    assert [3, 2, 1][..2] == [3, 2] && [3, 2][..1] == [3] && [3][..0] == [];
    assert Fill(c, [3]) == [3] by { assert Fill(c, []) == []; }
    assert Fill(c, [3, 2]) == [3, 2];
    assert Fill(c, [3, 2, 1]) == [3, 2, 1];
    assert PopRest(c, [3, 2, 1]) == [1, 2];
    assert PopRest(c, [1, 2]) == [2];
    assert PopRest(c, [2]) == [];
    assert Drain(c, []) == [];
    assert Drain(c, [2]) == [2];
    assert Drain(c, [1, 2]) == [1, 2];
  }

  /** An unsafe push lets a later pop from three items return one that is not the top. */
  lemma UnsafePushBreaksPop()
    ensures Run(MaxHeapCompare, 3, [3, 2, 1], [DoPop, DoPush(0)]) == [1, 2, 0]
    ensures !IsTop(MaxHeapCompare, [1, 2, 0], 1)
  {
    var c, ops := MaxHeapCompare, [DoPop, DoPush(0)];
    assert PopRest(c, [3, 2, 1]) == [1, 2];
    assert Push(c, [1, 2], 0) == [1, 2, 0];
    assert ops[1..] == [DoPush(0)] && [DoPush(0)][1..] == [];
    assert Run(c, 3, [1, 2, 0], []) == [1, 2, 0];
    assert Run(c, 3, [1, 2], [DoPush(0)]) == [1, 2, 0];
    assert !Over(c, 1, [1, 2, 0][1]);
  }
}
