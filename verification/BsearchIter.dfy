/** The resumable binary search. The caller answers one probe at a time and may say
    that an entry cannot be read; the iterator then probes outwards around the midpoint. */
module BsearchIter {
  import opened Foundations

  datatype Status = Continue | DoneNotFound | DoneFound

  datatype Notification = Left | Right | Eq | Skip | Abort

  // ----- the reference machine -----

  /** What a search still knows: a range and how many of its entries, counted from the
      midpoint outwards, were unreadable; or how it ended. */
  datatype Search = Probing(lo: int, hi: int, skipped: nat) | Found(index: int) | NotFound

  function Midpoint(lo: int, hi: int): int {
    lo + (hi - lo) / 2
  }

  /** The k-th offset of 0, +1, -1, +2, -2, ... */
  function Zigzag(k: nat): int {
    if k % 2 == 1 then (k + 1) / 2 else -(k / 2)
  }

  /** The position of an offset in that sequence. */
  function ZigzagRank(offset: int): nat {
    if offset > 0 then 2 * offset - 1 else -2 * offset
  }

  ghost predicate WellFormed(s: Search) {
    s.Probing? ==> s.lo <= s.hi && s.skipped <= s.hi - s.lo
  }

  function Probe(s: Search): int
    requires s.Probing?
  {
    Midpoint(s.lo, s.hi) + Zigzag(s.skipped)
  }

  /** First and last index of the block probed since the range was last cut. */
  function BlockFirst(s: Search): int
    requires s.Probing?
  {
    Midpoint(s.lo, s.hi) - s.skipped / 2
  }

  function BlockLast(s: Search): int
    requires s.Probing?
  {
    Midpoint(s.lo, s.hi) + (s.skipped + 1) / 2
  }

  function Narrow(lo: int, hi: int): Search {
    if lo <= hi then Probing(lo, hi, 0) else NotFound
  }

  /** LEFT and RIGHT discard the whole probed block and everything beyond it. */
  function Next(s: Search, n: Notification): Search {
    if !s.Probing? then s else
    match n
    case Eq => Found(Probe(s))
    case Left => Narrow(s.lo, BlockFirst(s) - 1)
    case Right => Narrow(BlockLast(s) + 1, s.hi)
    case Skip => if s.skipped == s.hi - s.lo then NotFound else s.(skipped := s.skipped + 1)
    case Abort => NotFound
  }

  function Run(s: Search, ns: seq<Notification>): Search {
    if ns == [] then s else Next(Run(s, ns[..|ns| - 1]), ns[|ns| - 1])
  }

  // ----- the zigzag visits every index once -----

  /** The indices probed so far are exactly the block; the zigzag stays inside the range
      for exactly as many probes as the range has entries, and never re-enters it. */
  lemma ZigzagCoverage(lo: int, hi: int, k: nat, i: int)
    requires lo <= hi
    ensures forall j: nat :: Zigzag(j) == Zigzag(k) ==> j == k
    ensures k <= hi - lo <==> lo <= Midpoint(lo, hi) + Zigzag(k) <= hi
    ensures lo <= i <= hi <==> exists j: nat :: j <= hi - lo && Midpoint(lo, hi) + Zigzag(j) == i
    ensures BlockFirst(Probing(lo, hi, k)) <= i <= BlockLast(Probing(lo, hi, k))
            <==> exists j: nat :: j <= k && Midpoint(lo, hi) + Zigzag(j) == i
  {
    var j := ZigzagRank(i - Midpoint(lo, hi));
    assert Midpoint(lo, hi) + Zigzag(j) == i;
  }

  // ----- arbitrary callers: safety and cost -----

  lemma NextStaysInside(s: Search, n: Notification, start: int, stop: int)
    requires WellFormed(s) && (s.Probing? ==> start <= s.lo && s.hi <= stop)
    requires s.Found? ==> start <= s.index <= stop
    ensures WellFormed(Next(s, n))
    ensures Next(s, n).Probing? ==>
              start <= Next(s, n).lo <= Probe(Next(s, n)) <= Next(s, n).hi <= stop
    ensures Next(s, n).Found? ==> start <= Next(s, n).index <= stop
  {
  }

  function Skips(ns: seq<Notification>): nat {
    if ns == [] then 0
    else Skips(ns[..|ns| - 1]) + if ns[|ns| - 1] == Skip then 1 else 0
  }

  /** A SKIP uses up one entry; any other answer that leaves the search open also at
      least halves the range, even in the middle of a zigzag. */
  lemma NextShrinks(s: Search, n: Notification)
    requires WellFormed(s) && Next(s, n).Probing?
    ensures s.Probing?
    ensures Next(s, n).hi - Next(s, n).lo - Next(s, n).skipped < s.hi - s.lo - s.skipped
    ensures n != Skip ==> 2 * (Next(s, n).hi - Next(s, n).lo + 1) <= s.hi - s.lo + 1
    ensures n == Skip ==> Next(s, n).lo == s.lo && Next(s, n).hi == s.hi
  {
  }

  /** Where an open search over [start, stop] can be after `given` answers, `cuts` of
      them other than SKIP. */
  ghost predicate WithinBudget(s: Search, start: int, stop: int, given: nat, cuts: int) {
    && WellFormed(s)
    && (s.Found? ==> start <= s.index <= stop)
    && (s.Probing? ==>
          && start <= s.lo <= Probe(s) <= s.hi <= stop
          && given + (s.hi - s.lo - s.skipped) <= stop - start
          && cuts + Log2(s.hi - s.lo + 1) <= Log2(stop - start + 1))
  }

  lemma BudgetStep(s: Search, n: Notification, start: int, stop: int, given: nat, cuts: int)
    requires WithinBudget(s, start, stop, given, cuts)
    ensures WithinBudget(Next(s, n), start, stop, given + 1, if n == Skip then cuts else cuts + 1)
  {
    NextStaysInside(s, n, start, stop);
    var t := Next(s, n);
    if t.Probing? {
      NextShrinks(s, n);
      if n != Skip {
        Log2Monotone(2 * (t.hi - t.lo + 1), s.hi - s.lo + 1);
      }
    }
  }

  /** Whatever the answers: while a search of n entries goes on, fewer than n answers were
      given and at most log2(n) of them were not SKIP. */
  lemma {:induction false} RunBounded(start: int, stop: int, ns: seq<Notification>)
    requires start <= stop
    ensures WithinBudget(Run(Probing(start, stop, 0), ns), start, stop, |ns|, |ns| - Skips(ns))
  {
    if ns != [] {
      var before, n := ns[..|ns| - 1], ns[|ns| - 1];
      RunBounded(start, stop, before);
      BudgetStep(Run(Probing(start, stop, 0), before), n, start, stop, |before|, |before| - Skips(before));
    }
  }

  /** The cost law: a search over n entries is over once n answers, or more than
      log2(n) answers other than SKIP, have been given. */
  lemma RunTerminates(start: int, stop: int, ns: seq<Notification>)
    requires start <= stop
    requires |ns| > stop - start || |ns| > Log2(stop - start + 1) + Skips(ns)
    ensures !Run(Probing(start, stop, 0), ns).Probing?
  {
    RunBounded(start, stop, ns);
  }

  /** Once over, a search never changes its verdict. */
  lemma {:induction false} DoneIsFinal(s: Search, ns: seq<Notification>)
    requires !s.Probing?
    ensures Run(s, ns) == s
  {
    if ns != [] {
      DoneIsFinal(s, ns[..|ns| - 1]);
    }
  }

  // ----- what any run of answers leaves open -----

  /** The entries skipped around the midpoint: the probed block without the probe. */
  predicate InSkippedBlock(s: Search, i: int)
    requires s.Probing?
  {
    BlockFirst(s) <= i <= BlockLast(s) && i != Probe(s)
  }

  /** Index `i` may still be probed. */
  predicate IsOpen(s: Search, i: int) {
    s.Probing? && s.lo <= i <= s.hi && !InSkippedBlock(s, i)
  }

  /** What an answer to a probe says about index `i`: it may still hold the target. */
  predicate Allows(n: Notification, probe: int, i: int) {
    match n
    case Left => i < probe
    case Right => i > probe
    case Skip => i != probe
    case Eq => false
    case Abort => false
  }

  /** An answer closes exactly the indices it rules out. The search goes on exactly while
      an index is left, and ends FOUND on EQ alone, at the probe. */
  lemma NextKeepsExactly(s: Search, n: Notification, i: int)
    requires s.Probing? && WellFormed(s)
    ensures IsOpen(s, Probe(s))
    ensures IsOpen(Next(s, n), i) <==> IsOpen(s, i) && Allows(n, Probe(s), i)
    ensures Next(s, n).Probing? <==> exists j :: IsOpen(s, j) && Allows(n, Probe(s), j)
    ensures Next(s, n).Found? <==> n == Eq
    ensures Next(s, n).Found? ==> Next(s, n).index == Probe(s)
  {
    var t := Next(s, n);
    if t.Probing? {
      NextStaysInside(s, n, s.lo, s.hi);
      var j := Probe(t);
      AnswerClosesExactly(s, n, j);
      assert IsOpen(t, j) && Allows(n, Probe(s), j);
    }
    forall j ensures IsOpen(t, j) <==> IsOpen(s, j) && Allows(n, Probe(s), j) {
      AnswerClosesExactly(s, n, j);
    }
  }

  lemma AnswerClosesExactly(s: Search, n: Notification, i: int)
    requires s.Probing? && WellFormed(s)
    ensures IsOpen(Next(s, n), i) <==> IsOpen(s, i) && Allows(n, Probe(s), i)
  {
    match n {
      case Left =>
      case Right =>
      case _ =>
    }
  }

  /** The search after its first `k` answers. */
  function At(start: int, stop: int, ns: seq<Notification>, k: nat): Search
    requires k <= |ns|
  {
    Run(Probing(start, stop, 0), ns[..k])
  }

  /** Answer `k` was given to an open search and leaves index `i` possible. */
  predicate AnswerAllows(start: int, stop: int, ns: seq<Notification>, k: nat, i: int)
    requires k < |ns|
  {
    var s := At(start, stop, ns, k);
    s.Probing? && Allows(ns[k], Probe(s), i)
  }

  ghost predicate AllAnswersAllow(start: int, stop: int, ns: seq<Notification>, i: int) {
    forall k | 0 <= k < |ns| :: AnswerAllows(start, stop, ns, k, i)
  }

  lemma LastAnswerAllows(start: int, stop: int, ns: seq<Notification>, n: Notification, i: int)
    ensures var s := Run(Probing(start, stop, 0), ns);
            AllAnswersAllow(start, stop, ns + [n], i) <==>
              AllAnswersAllow(start, stop, ns, i) && s.Probing? && Allows(n, Probe(s), i)
  {
    hide Run, Probe, Allows;
    var more := ns + [n];
    assert more[..|ns|] == ns;
    forall k | 0 <= k < |ns|
      ensures AnswerAllows(start, stop, more, k, i) == AnswerAllows(start, stop, ns, k, i)
    {
      assert more[..k] == ns[..k] && more[k] == ns[k];
    }
    assert AnswerAllows(start, stop, more, |ns|, i)
           == (Run(Probing(start, stop, 0), ns).Probing? && Allows(n, Probe(Run(Probing(start, stop, 0), ns)), i));
  }

  /** After any run of answers, the indices that may still be probed are exactly those of the
      initial range that no answer rules out. */
  lemma {:induction false} RunLeavesOpen(start: int, stop: int, ns: seq<Notification>, i: int)
    requires start <= stop
    ensures IsOpen(Run(Probing(start, stop, 0), ns), i) <==>
              start <= i <= stop && AllAnswersAllow(start, stop, ns, i)
  {
    if ns == [] {
      assert Run(Probing(start, stop, 0), ns) == Probing(start, stop, 0);
    } else {
      hide Next, IsOpen, Allows, AllAnswersAllow;
      var before, n := ns[..|ns| - 1], ns[|ns| - 1];
      var s := Run(Probing(start, stop, 0), before);
      RunLeavesOpen(start, stop, before, i);
      RunBounded(start, stop, before);
      assert ns == before + [n];
      LastAnswerAllows(start, stop, before, n, i);
      if s.Probing? {
        NextKeepsExactly(s, n, i);
      } else {
        ClosedStaysClosed(s, n, i);
      }
    }
  }

  lemma ClosedStaysClosed(s: Search, n: Notification, i: int)
    requires !s.Probing?
    ensures Next(s, n) == s && !IsOpen(s, i)
  {
  }

  /** No run probes an index twice. */
  lemma ProbesDiffer(start: int, stop: int, ns: seq<Notification>, j: nat, k: nat)
    requires start <= stop && j < k <= |ns|
    requires At(start, stop, ns, k).Probing?
    ensures At(start, stop, ns, j).Probing? && Probe(At(start, stop, ns, j)) != Probe(At(start, stop, ns, k))
  {
    var s, before := At(start, stop, ns, k), ns[..k];
    RunBounded(start, stop, before);
    NextKeepsExactly(s, Eq, Probe(s));
    RunLeavesOpen(start, stop, before, Probe(s));
    assert AnswerAllows(start, stop, before, j, Probe(s));
    assert before[..j] == ns[..j];
  }

  /** Whatever the answers, a run ends FOUND exactly when EQ was given to an open search, and
      then at the index probed at that moment. */
  lemma {:induction false} FoundOnlyByEq(start: int, stop: int, ns: seq<Notification>)
    requires start <= stop
    ensures var s := Run(Probing(start, stop, 0), ns);
            && (s.Found? ==> exists k | 0 <= k < |ns| :: EqAt(start, stop, ns, k))
            && (forall k | 0 <= k < |ns| && EqAt(start, stop, ns, k) :: s == Found(Probe(At(start, stop, ns, k))))
  {
    if ns != [] {
      var last := |ns| - 1;
      var before := ns[..last];
      FoundOnlyByEq(start, stop, before);
      RunBounded(start, stop, before);
      assert forall k | 0 <= k < last :: before[..k] == ns[..k] && before[k] == ns[k];
      assert forall k | 0 <= k < last :: EqAt(start, stop, before, k) == EqAt(start, stop, ns, k);
      var s := Run(Probing(start, stop, 0), before);
      assert At(start, stop, ns, last) == s;
      if s.Probing? {
        NextKeepsExactly(s, ns[last], 0);
        assert EqAt(start, stop, ns, last) <==> ns[last] == Eq;
      }
    }
  }

  predicate EqAt(start: int, stop: int, ns: seq<Notification>, k: nat)
    requires k < |ns|
  {
    At(start, stop, ns, k).Probing? && ns[k] == Eq
  }

  // ----- honest callers: completeness -----

  /** A table whose unreadable entries are `None`. */
  type Table = int -> Option<int>

  ghost predicate SortedWhereReadable(table: Table, start: int, stop: int) {
    forall i, j :: start <= i <= j <= stop && table(i).Some? && table(j).Some? ==>
                     table(i).value <= table(j).value
  }

  function HonestAnswer(entry: Option<int>, target: int): Notification {
    match entry
    case None => Skip
    case Some(v) => if v == target then Eq else if v > target then Left else Right
  }

  /** Every readable match is still ahead of the search: in the range, not yet probed. */
  ghost predicate KeepsMatches(s: Search, table: Table, start: int, stop: int, target: int) {
    match s
    case Probing(lo, hi, skipped) =>
      && start <= lo && hi <= stop
      && (forall i :: start <= i <= stop && table(i) == Some(target) ==> lo <= i <= hi)
      && (forall i :: InSkippedBlock(s, i) ==> table(i).None?)
    case Found(index) => start <= index <= stop && table(index) == Some(target)
    case NotFound => forall i :: start <= i <= stop ==> table(i) != Some(target)
  }

  lemma HonestStep(s: Search, table: Table, start: int, stop: int, target: int)
    requires s.Probing? && WellFormed(s)
    requires SortedWhereReadable(table, start, stop)
    requires KeepsMatches(s, table, start, stop, target)
    ensures KeepsMatches(Next(s, HonestAnswer(table(Probe(s)), target)), table, start, stop, target)
  {
    hide InSkippedBlock, Midpoint, Zigzag, BlockFirst, BlockLast;
    ZigzagCoverage(s.lo, s.hi, s.skipped, s.lo);
    var probe, t := Probe(s), Next(s, HonestAnswer(table(Probe(s)), target));
    NextStaysInside(s, HonestAnswer(table(probe), target), start, stop);
    forall i | start <= i <= stop && table(i) == Some(target) && !t.Found?
      ensures t.Probing? && t.lo <= i <= t.hi
    {
      assert !InSkippedBlock(s, i);
      MatchSurvives(s, HonestAnswer(table(probe), target), i);
    }
    if t.Probing? {
      forall i | InSkippedBlock(t, i)
        ensures table(i).None?
      {
        BlockGrowsByProbe(s, HonestAnswer(table(probe), target), i);
      }
    }
  }

  /** Only a SKIP adds to the skipped entries, and it adds the probe. */
  lemma BlockGrowsByProbe(s: Search, n: Notification, i: int)
    requires s.Probing? && Next(s, n).Probing? && InSkippedBlock(Next(s, n), i)
    ensures n == Skip && (InSkippedBlock(s, i) || i == Probe(s))
  {
  }

  /** An index on the answered side of the probe, and not skipped, stays in the range. */
  lemma MatchSurvives(s: Search, n: Notification, i: int)
    requires s.Probing? && WellFormed(s)
    requires s.lo <= i <= s.hi && !InSkippedBlock(s, i)
    requires match n
             case Left => i < Probe(s)
             case Right => i > Probe(s)
             case Skip => i != Probe(s)
             case _ => false
    ensures Next(s, n).Probing? && Next(s, n).lo <= i <= Next(s, n).hi
  {
  }

  // ----- 32-bit arithmetic -----

  newtype int32 = x: int | -0x8000_0000 <= x < 0x8000_0000

  const INT32_MAX: int := 0x7fff_ffff
  const INT32_MIN: int := -0x8000_0000

  /** The values computed on an open search fit `int32`: the width of its range, from which
      its midpoint was found, and the index a step moves to, in the range or one past it. */
  predicate Representable(s: Search, n: Notification) {
    s.Probing? ==>
      && s.hi - s.lo <= INT32_MAX
      && match n
         case Left => INT32_MIN <= BlockFirst(s) - 1
         case Right => BlockLast(s) + 1 <= INT32_MAX
         case Skip => INT32_MIN <= Midpoint(s.lo, s.hi) + Zigzag(s.skipped + 1) <= INT32_MAX
         case _ => true
  }

  /** One index is free on either side, and the width of the range fits. */
  predicate HasMargin(start: int, stop: int) {
    INT32_MIN < start && stop < INT32_MAX && stop - start <= INT32_MAX
  }

  lemma MarginSuffices(s: Search, n: Notification, start: int, stop: int)
    requires WellFormed(s) && HasMargin(start, stop)
    requires s.Probing? ==> start <= s.lo && s.hi <= stop
    ensures Representable(s, n)
  {
  }

  function SkipTimes(k: nat): (ns: seq<Notification>)
    ensures |ns| == k
  {
    seq(k, _ => Skip)
  }

  lemma {:induction false} SkipsAccumulate(start: int, stop: int, k: nat)
    requires k <= stop - start
    ensures Run(Probing(start, stop, 0), SkipTimes(k)) == Probing(start, stop, k)
  {
    if k > 0 {
      SkipsAccumulate(start, stop, k - 1);
      assert SkipTimes(k)[..k - 1] == SkipTimes(k - 1);
    }
  }

  ghost predicate RunsRepresentable(start: int, stop: int) {
    forall ns, n :: Representable(Run(Probing(start, stop, 0), ns), n)
  }

  /** No run over [start, stop] overflows, from the first midpoint on, exactly when one
      index is free on either side and the width of the range fits. */
  lemma NoOverflowIffMargin(start: int, stop: int)
    requires start <= stop
    ensures RunsRepresentable(start, stop) <==> HasMargin(start, stop)
  {
    if HasMargin(start, stop) {
      forall ns, n ensures Representable(Run(Probing(start, stop, 0), ns), n) {
        RunBounded(start, stop, ns);
        MarginSuffices(Run(Probing(start, stop, 0), ns), n, start, stop);
      }
    }
    if RunsRepresentable(start, stop) {
      var ns := SkipTimes(stop - start);
      SkipsAccumulate(start, stop, stop - start);
      assert Representable(Run(Probing(start, stop, 0), []), Eq);
      assert Representable(Run(Probing(start, stop, 0), ns), Left);
      assert Representable(Run(Probing(start, stop, 0), ns), Right);
    }
  }

  // ----- the iterator -----

  function NextPivotOffset(offset: int32): (next: int32)
    requires -INT32_MAX < offset as int
    ensures ZigzagRank(next as int) == ZigzagRank(offset as int) + 1
  {
    if offset == 0 then 1
    else if offset > 0 then offset * -1
    else offset * -1 + 1
  }

  function MidpointSafe(left: int32, right: int32): (m: int32)
    requires left <= right && right as int - left as int <= INT32_MAX
    ensures m as int == Midpoint(left as int, right as int)
  {
    left + (right - left) / 2
  }

  /** The cuts and the exhaustion test, in terms of the signed offset. */
  lemma OffsetDecides(lo: int, hi: int, offset: int)
    ensures var s, m := Probing(lo, hi, ZigzagRank(offset)), Midpoint(lo, hi);
            && Probe(s) == m + offset
            && BlockFirst(s) - 1 == (if offset > 0 then m - offset else m + offset - 1)
            && BlockLast(s) + 1 == (if offset < 0 then m - offset + 1 else m + offset + 1)
            && (lo <= hi ==> (ZigzagRank(offset) <= hi - lo <==> lo <= m + offset <= hi))
  {
  }

  class Iterator {
    var status: Status
    var leftIdx: int32
    var rightIdx: int32
    var pivotIdx: int32
    var pivotOffset: int32

    ghost predicate Valid()
      reads this
    {
      && leftIdx <= rightIdx && rightIdx as int - leftIdx as int <= INT32_MAX
      && INT32_MIN <= pivotIdx as int + pivotOffset as int <= INT32_MAX
      && (status == Continue ==>
            && pivotIdx as int == Midpoint(leftIdx as int, rightIdx as int)
            && WellFormed(View()))
    }

    ghost function View(): Search
      reads this
    {
      match status
      case Continue => Probing(leftIdx as int, rightIdx as int, ZigzagRank(pivotOffset as int))
      case DoneFound => Found(pivotIdx as int + pivotOffset as int)
      case DoneNotFound => NotFound
    }

    constructor () {
      status := DoneNotFound;
      leftIdx, rightIdx, pivotIdx, pivotOffset := 0, 0, 0, 0;
    }

    method Init(start: int32, stop: int32) returns (code: ErrorCode)
      requires start < stop ==> stop as int - start as int <= INT32_MAX
      modifies this
      ensures code == if start < stop then ErrNone else ErrInvalidArg
      ensures start < stop ==> Valid() && View() == Probing(start as int, stop as int, 0)
      ensures start >= stop ==> unchanged(this)
    {
      if start >= stop { return ErrInvalidArg; }
      status := Continue;
      leftIdx := start;
      rightIdx := stop;
      pivotIdx := MidpointSafe(leftIdx, rightIdx);
      pivotOffset := 0;
      return ErrNone;
    }

    method Deinit()
      requires Valid()
      modifies this
      ensures Valid()
      ensures View() == if old(View()).Probing? then NotFound else old(View())
    {
      if status == Continue {
        status := DoneNotFound;
      }
    }

    function CheckIndex(): (i: int32)
      requires Valid()
      reads this
      ensures View().Probing? ==> i as int == Probe(View()) && leftIdx <= i <= rightIdx
    {
      pivotIdx + pivotOffset
    }

    function FoundIndex(): (i: int32)
      requires Valid()
      reads this
      ensures View().Found? ==> i as int == View().index
      ensures !View().Found? ==> i == -1
    {
      if status == DoneFound then pivotIdx + pivotOffset else -1
    }

    method Notify(notification: Notification)
      requires Valid() && Representable(View(), notification)
      modifies this
      ensures Valid()
      ensures View() == Next(old(View()), notification)
    {
      if status != Continue { return; }
      match notification
      case Eq => status := DoneFound;
      case Left => NotifyLeft();
      case Right => NotifyRight();
      case Skip => NotifySkip();
      case Abort => status := DoneNotFound;
    }

    method NotifyLeft()
      requires Valid() && status == Continue && Representable(View(), Left)
      modifies this
      ensures Valid()
      ensures View() == Next(old(View()), Left)
    {
      hide Zigzag, BlockFirst, BlockLast;
      OffsetDecides(leftIdx as int, rightIdx as int, pivotOffset as int);
      var nextRight: int32;
      if pivotOffset > 0 {
        nextRight := pivotIdx + NextPivotOffset(pivotOffset);
      } else {
        nextRight := pivotIdx + pivotOffset - 1;
      }
      if nextRight >= rightIdx || nextRight < leftIdx {
        status := DoneNotFound;
      } else {
        rightIdx := nextRight;
        pivotIdx := MidpointSafe(leftIdx, rightIdx);
        pivotOffset := 0;
      }
    }

    method NotifyRight()
      requires Valid() && status == Continue && Representable(View(), Right)
      modifies this
      ensures Valid()
      ensures View() == Next(old(View()), Right)
    {
      hide Zigzag, BlockFirst, BlockLast;
      OffsetDecides(leftIdx as int, rightIdx as int, pivotOffset as int);
      var nextLeft: int32;
      if pivotOffset < 0 {
        nextLeft := pivotIdx + NextPivotOffset(pivotOffset);
      } else {
        nextLeft := pivotIdx + pivotOffset + 1;
      }
      if nextLeft <= leftIdx || nextLeft > rightIdx {
        status := DoneNotFound;
      } else {
        leftIdx := nextLeft;
        pivotIdx := MidpointSafe(leftIdx, rightIdx);
        pivotOffset := 0;
      }
    }

    method NotifySkip()
      requires Valid() && status == Continue && Representable(View(), Skip)
      modifies this
      ensures Valid()
      ensures View() == Next(old(View()), Skip)
    {
      hide Zigzag, BlockFirst, BlockLast;
      pivotOffset := NextPivotOffset(pivotOffset);
      OffsetDecides(leftIdx as int, rightIdx as int, pivotOffset as int);
      var next := pivotIdx + pivotOffset;
      if next > rightIdx || next < leftIdx {
        status := DoneNotFound;
      }
    }
  }

  ghost predicate HasMatch(table: Table, start: int, stop: int, target: int) {
    exists i :: start <= i <= stop && table(i) == Some(target)
  }

  lemma StartKeepsMatches(table: Table, start: int, stop: int, target: int)
    requires start <= stop
    ensures KeepsMatches(Probing(start, stop, 0), table, start, stop, target)
    ensures Affordable(Probing(start, stop, 0), start, stop, [])
  {
  }

  lemma VerdictIsRight(s: Search, table: Table, start: int, stop: int, target: int)
    requires KeepsMatches(s, table, start, stop, target) && !s.Probing?
    ensures s.Found? <==> HasMatch(table, start, stop, target)
    ensures s.Found? ==> start <= s.index <= stop && table(s.index) == Some(target)
  {
  }

  /** No step of the honest search from `s` leaves `int32`. */
  ghost predicate HonestRunRepresentable(s: Search, table: Table, target: int)
    requires WellFormed(s)
    decreases if s.Probing? then s.hi - s.lo - s.skipped + 1 else 0
  {
    s.Probing? ==>
      var answer := HonestAnswer(table(Probe(s)), target);
      NextStaysInside(s, answer, s.lo, s.hi);
      var t := Next(s, answer);
      assert t.Probing? ==> t.hi - t.lo - t.skipped < s.hi - s.lo - s.skipped by {
        if t.Probing? { NextShrinks(s, answer); }
      }
      Representable(s, answer) && HonestRunRepresentable(t, table, target)
  }

  /** With a margin around the range every honest search stays in `int32`. */
  lemma {:induction false} MarginSufficesForHonest(s: Search, table: Table, target: int, start: int, stop: int)
    requires WellFormed(s) && HasMargin(start, stop)
    requires s.Probing? ==> start <= s.lo && s.hi <= stop
    ensures HonestRunRepresentable(s, table, target)
    decreases if s.Probing? then s.hi - s.lo - s.skipped + 1 else 0
  {
    if s.Probing? {
      var answer := HonestAnswer(table(Probe(s)), target);
      NextStaysInside(s, answer, s.lo, s.hi);
      var t := Next(s, answer);
      if t.Probing? { NextShrinks(s, answer); }
      MarginSuffices(s, answer, start, stop);
      MarginSufficesForHonest(t, table, target, start, stop);
    }
  }

  /** The search is within the budget of its answers, and so is their number. */
  ghost predicate Affordable(s: Search, start: int, stop: int, answers: seq<Notification>) {
    && WithinBudget(s, start, stop, |answers|, |answers| - Skips(answers))
    && |answers| <= stop - start + 1
    && |answers| <= Log2(stop - start + 1) + 1 + Skips(answers)
  }

  lemma AnswerWithinBudget(s: Search, n: Notification, start: int, stop: int, answers: seq<Notification>)
    requires s.Probing? && Affordable(s, start, stop, answers)
    ensures WellFormed(Next(s, n)) && Affordable(Next(s, n), start, stop, answers + [n])
    ensures |answers| < stop - start + 1
  {
    hide Next, Log2;
    BudgetStep(s, n, start, stop, |answers|, |answers| - Skips(answers));
    assert (answers + [n])[..|answers|] == answers;
  }

  /** The loop of the header's usage note: ends FOUND at a match exactly when some readable
      entry matches, within the probe bounds of any run. */
  method Find(table: Table, start: int32, stop: int32, target: int)
    returns (found: bool, index: int32, answers: seq<Notification>)
    requires start < stop && stop as int - start as int <= INT32_MAX
    requires HonestRunRepresentable(Probing(start as int, stop as int, 0), table, target)
    requires SortedWhereReadable(table, start as int, stop as int)
    ensures found <==> HasMatch(table, start as int, stop as int, target)
    ensures found ==> start <= index <= stop && table(index as int) == Some(target)
    ensures !found ==> index == -1
    ensures |answers| <= stop as int - start as int + 1
    ensures |answers| <= Log2(stop as int - start as int + 1) + 1 + Skips(answers)
  {
    hide KeepsMatches, SortedWhereReadable, HasMatch, Midpoint, Zigzag, Log2, Skips, WithinBudget;
    var lo, hi := start as int, stop as int;
    StartKeepsMatches(table, lo, hi, target);
    var iter := new Iterator();
    var _ := iter.Init(start, stop);
    answers := [];
    ghost var s := Probing(lo, hi, 0);
    while iter.status == Continue
      invariant fresh(iter) && iter.Valid() && iter.View() == s
      invariant KeepsMatches(s, table, lo, hi, target)
      invariant WellFormed(s) && HonestRunRepresentable(s, table, target)
      invariant Affordable(s, lo, hi, answers)
      decreases hi - lo + 1 - |answers|
    {
      var answer := HonestAnswer(table(iter.CheckIndex() as int), target);
      HonestStep(s, table, lo, hi, target);
      AnswerWithinBudget(s, answer, lo, hi, answers);
      iter.Notify(answer);
      s := Next(s, answer);
      answers := answers + [answer];
    }
    VerdictIsRight(s, table, lo, hi, target);
    found := iter.status == DoneFound;
    index := iter.FoundIndex();
  }
}
