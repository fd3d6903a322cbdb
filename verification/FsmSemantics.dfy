/** What the state machine engine does, over the trace of its callbacks.

    A handler's answer is a function of the call and of every call before it, so handlers
    with any private state are covered. Handlers do not call back into the engine. */
module FsmSemantics {
  import opened Foundations

  datatype Call<E> = Entry(state: nat) | Event(state: nat, event: E) | Exit(state: nat)

  type Trace<E> = seq<Call<E>>

  type Handlers<!E> = (Call<E>, Trace<E>) -> nat

  datatype Config<!E> = Config(
    handlers: Handlers<E>, stateCount: nat, initialState: nat, maxTransitionCount: nat)

  predicate ValidConfig<E>(c: Config<E>) {
    c.stateCount > 0 && c.maxTransitionCount > 0 && c.initialState < c.stateCount
  }

  // ----- resolving transitions -----

  datatype Resolution<E> = Resolution(code: ErrorCode, state: nat, trace: Trace<E>, transitions: nat)

  /** An exit handler that names another state overrides the pending request. */
  function Target(state: nat, requested: nat, onExit: nat): nat {
    if onExit == state then requested else onExit
  }

  /** Follow requests from `state`, `done` transitions having been performed. */
  function Resolve<E>(c: Config<E>, state: nat, requested: nat, trace: Trace<E>, done: nat): Resolution<E>
    requires done <= c.maxTransitionCount
    decreases c.maxTransitionCount - done
  {
    if done == c.maxTransitionCount then Resolution(ErrTimeout, state, trace, done)
    else if requested == state then Resolution(ErrNone, state, trace, done)
    else
      var exited := trace + [Exit(state)];
      var target := Target(state, requested, c.handlers(Exit(state), trace));
      if target >= c.stateCount then Resolution(ErrOutOfBounds, state, exited, done)
      else
        Resolve(c, target, c.handlers(Entry(target), exited), exited + [Entry(target)], done + 1)
  }

  /** After `before`, with `pending` requested, `calls` are `n` transitions in a row: each is
      made because another state was requested, and leaves a state for a different one in
      range, the one its exit handler named, or the pending request if it named none. */
  ghost predicate Hops<E>(c: Config<E>, before: Trace<E>, calls: Trace<E>, from: nat, pending: nat, to: nat, n: nat)
    decreases n
  {
    if n == 0 then calls == [] && from == to
    else
      && pending != from
      && |calls| >= 2 && calls[0] == Exit(from) && calls[1].Entry?
      && var onExit, target := c.handlers(Exit(from), before), calls[1].state;
         && target != from && target < c.stateCount
         && target == (if onExit != from then onExit else pending)
         && Hops(c, before + [Exit(from)] + [Entry(target)], calls[2..],
                 target, c.handlers(Entry(target), before + [Exit(from)]), to, n - 1)
  }

  /** What the last handler called asked for, or the pending request if none was called. */
  function LastAnswer<E>(c: Config<E>, requested: nat, trace: Trace<E>, since: nat): nat {
    if |trace| <= since then requested
    else c.handlers(trace[|trace| - 1], trace[..|trace| - 1])
  }

  /** Resolution ends within the cap and its code says exactly how. TIMEOUT: the cap was used
      up. NONE: below the cap, after complete transitions only, with the last answer naming
      the current state. OUT_OF_BOUNDS: below the cap, one exit call further, the state not
      left because the target is none the machine has. */
  lemma {:induction false} ResolutionClassified<E>(
    c: Config<E>, state: nat, requested: nat, trace: Trace<E>, done: nat)
    requires done <= c.maxTransitionCount && state < c.stateCount
    ensures var r := Resolve(c, state, requested, trace, done);
            && trace <= r.trace && done <= r.transitions <= c.maxTransitionCount
            && r.state < c.stateCount
            && var complete := |trace| + 2 * (r.transitions - done);
            && (r.code == ErrTimeout <==> r.transitions == c.maxTransitionCount)
            && (r.code == ErrNone <==>
                  && r.transitions < c.maxTransitionCount && |r.trace| == complete
                  && LastAnswer(c, requested, r.trace, |trace|) == r.state)
            && (r.code == ErrOutOfBounds <==>
                  r.transitions < c.maxTransitionCount && |r.trace| == complete + 1)
            && (r.code == ErrOutOfBounds ==>
                  && var before := r.trace[..|r.trace| - 1];
                  && r.trace[|before|] == Exit(r.state)
                  && LastAnswer(c, requested, before, |trace|) != r.state
                  && Target(r.state, LastAnswer(c, requested, before, |trace|),
                            c.handlers(Exit(r.state), before)) >= c.stateCount)
            && (r.code == ErrNone || r.code == ErrTimeout || r.code == ErrOutOfBounds)
    decreases c.maxTransitionCount - done
  {
    var r := Resolve(c, state, requested, trace, done);
    if done < c.maxTransitionCount && requested != state {
      var exited := trace + [Exit(state)];
      var target := Target(state, requested, c.handlers(Exit(state), trace));
      if target < c.stateCount {
        ResolutionClassified(c, target, c.handlers(Entry(target), exited), exited + [Entry(target)], done + 1);
        LastAnswerSince(c, requested, exited, target, r.trace);
        if r.code == ErrOutOfBounds {
          LastAnswerSince(c, requested, exited, target, r.trace[..|r.trace| - 1]);
        }
      } else {
        assert r.trace[..|r.trace| - 1] == trace;
      }
    }
  }

  /** Right after an entry, the pending request is that entry's answer. */
  lemma LastAnswerSince<E>(c: Config<E>, requested: nat, exited: Trace<E>, target: nat, trace: Trace<E>)
    requires exited != [] && exited + [Entry(target)] <= trace
    ensures LastAnswer(c, requested, trace, |exited| - 1)
            == LastAnswer(c, c.handlers(Entry(target), exited), trace, |exited| + 1)
  {
    var entered := exited + [Entry(target)];
    if |trace| == |entered| {
      assert trace == entered && entered[..|exited|] == exited;
    }
  }

  /** The calls of the transitions a resolution completed. */
  function Completed<E>(r: Resolution<E>, since: nat): Trace<E>
    requires since <= |r.trace|
  {
    if r.code == ErrOutOfBounds && since < |r.trace| then r.trace[since..|r.trace| - 1]
    else r.trace[since..]
  }

  /** What it completed are real transitions, as many as it counted. */
  lemma {:induction false} ResolutionHops<E>(
    c: Config<E>, state: nat, requested: nat, trace: Trace<E>, done: nat)
    requires done <= c.maxTransitionCount && state < c.stateCount
    ensures var r := Resolve(c, state, requested, trace, done);
            && |trace| <= |r.trace| && done <= r.transitions
            && Hops(c, trace, Completed(r, |trace|), state, requested, r.state, r.transitions - done)
    decreases c.maxTransitionCount - done
  {
    if done < c.maxTransitionCount && requested != state {
      var exited := trace + [Exit(state)];
      var target := Target(state, requested, c.handlers(Exit(state), trace));
      if target < c.stateCount {
        hide Hops, Completed;
        var entered := exited + [Entry(target)];
        var r := Resolve(c, state, requested, trace, done);
        ResolutionHops(c, target, c.handlers(Entry(target), exited), entered, done + 1);
        ResolutionClassified(c, target, c.handlers(Entry(target), exited), entered, done + 1);
        HopsExtend(c, r, trace, state, requested, target, r.transitions - done);
      }
    }
  }

  /** A transition in front of completed transitions. */
  lemma HopsExtend<E>(c: Config<E>, r: Resolution<E>, before: Trace<E>, from: nat, pending: nat, target: nat, n: nat)
    requires before + [Exit(from)] + [Entry(target)] <= r.trace
    requires r.code == ErrOutOfBounds ==> |before| + 2 < |r.trace|
    requires n > 0 && from != pending && target < c.stateCount
    requires target == Target(from, pending, c.handlers(Exit(from), before))
    requires Hops(c, before + [Exit(from)] + [Entry(target)], Completed(r, |before| + 2),
                  target, c.handlers(Entry(target), before + [Exit(from)]), r.state, n - 1)
    ensures Hops(c, before, Completed(r, |before|), from, pending, r.state, n)
  {
    var entered := before + [Exit(from)] + [Entry(target)];
    assert r.trace[|before|] == entered[|before|] && r.trace[|before| + 1] == entered[|before| + 1];
    var calls := Completed(r, |before|);
    assert calls[0] == Exit(from) && calls[1] == Entry(target);
    assert calls[2..] == Completed(r, |before| + 2);
  }

  // ----- entry/exit bracketing -----

  datatype Phase = Outside | Inside(state: nat) | Broken

  function Advance<E>(p: Phase, call: Call<E>): Phase {
    match call
    case Entry(s) => if p == Outside then Inside(s) else Broken
    case Event(s, _) => if p == Inside(s) then p else Broken
    case Exit(s) => if p == Inside(s) then Outside else Broken
  }

  /** Reads a trace as blocks Entry(s), events to s, Exit(s). */
  function Scan<E>(calls: Trace<E>): Phase {
    if calls == [] then Outside else Advance(Scan(calls[..|calls| - 1]), calls[|calls| - 1])
  }

  lemma ScanSnoc<E>(calls: Trace<E>, call: Call<E>)
    ensures Scan(calls + [call]) == Advance(Scan(calls), call)
  {
    assert (calls + [call])[..|calls|] == calls;
  }

  /** Inside a state means: its entry was called, and since then only events to it. */
  lemma {:induction false} ScanInside<E>(calls: Trace<E>) returns (at: nat)
    requires Scan(calls).Inside?
    ensures at < |calls| && calls[at] == Entry(Scan(calls).state)
    ensures forall k | at < k < |calls| :: calls[k].Event? && calls[k].state == Scan(calls).state
    ensures Scan(calls[..at]) == Outside
  {
    var last := |calls| - 1;
    if calls[last].Entry? {
      at := last;
    } else {
      at := ScanInside(calls[..last]);
      assert calls[..last][..at] == calls[..at];
    }
  }

  lemma {:induction false} ScanPrefix<E>(calls: Trace<E>, k: nat)
    requires k <= |calls| && Scan(calls) != Broken
    ensures Scan(calls[..k]) != Broken
  {
    if k < |calls| {
      ScanPrefix(calls[..|calls| - 1], k);
      assert calls[..|calls| - 1][..k] == calls[..k];
    } else {
      assert calls[..k] == calls;
    }
  }

  /** In an unbroken trace every event, and every exit, goes to the state entered last
      and not exited since; and an entry only follows an exit. */
  lemma UnbrokenIsBracketed<E>(calls: Trace<E>, i: nat) returns (at: nat)
    requires Scan(calls) != Broken && i < |calls|
    ensures !calls[i].Entry? ==>
              && at < i && calls[at] == Entry(calls[i].state)
              && forall k | at < k < i :: calls[k].Event? && calls[k].state == calls[i].state
    ensures calls[i].Entry? && i > 0 ==> calls[i - 1].Exit?
  {
    ScanPrefix(calls, i + 1);
    assert calls[..i + 1][..i] == calls[..i];
    at := 0;
    if calls[i].Entry? {
      if i > 0 {
        assert Advance(Scan(calls[..i][..i - 1]), calls[i - 1]) == Outside;
      }
    } else {
      at := ScanInside(calls[..i]);
    }
  }

  /** Complete transitions carry a scan from the first state to the last. */
  lemma {:induction false} ScanHops<E>(
    c: Config<E>, before: Trace<E>, calls: Trace<E>, from: nat, pending: nat, to: nat, n: nat)
    requires Scan(before) == Inside(from) && Hops(c, before, calls, from, pending, to, n)
    ensures Scan(before + calls) == Inside(to)
    decreases n
  {
    if n == 0 {
      assert before + calls == before;
    } else {
      var exited := before + [Exit(from)];
      var target := calls[1].state;
      ScanSnoc(before, Exit(from));
      ScanSnoc(exited, Entry(target));
      ScanHops(c, exited + [Entry(target)], calls[2..], target, c.handlers(Entry(target), exited), to, n - 1);
      assert before + calls == exited + [Entry(target)] + calls[2..];
    }
  }

  lemma ScanResolution<E>(c: Config<E>, state: nat, requested: nat, trace: Trace<E>)
    requires ValidConfig(c) && state < c.stateCount && Scan(trace) == Inside(state)
    ensures var r := Resolve(c, state, requested, trace, 0);
            Scan(r.trace) == if r.code == ErrOutOfBounds then Outside else Inside(r.state)
  {
    hide Resolve, Hops, Completed, Scan;
    var r := Resolve(c, state, requested, trace, 0);
    ResolutionClassified(c, state, requested, trace, 0);
    ResolutionHops(c, state, requested, trace, 0);
    var calls := Completed(r, |trace|);
    ScanHops(c, trace, calls, state, requested, r.state, r.transitions);
    CompletedIsRest(r, trace);
    if r.code == ErrOutOfBounds {
      ScanSnoc(trace + calls, Exit(r.state));
    }
  }

  lemma CompletedIsRest<E>(r: Resolution<E>, before: Trace<E>)
    requires before <= r.trace
    requires r.code == ErrOutOfBounds ==>
               |before| < |r.trace| && r.trace[|r.trace| - 1] == Exit(r.state)
    ensures r.trace == if r.code == ErrOutOfBounds
                       then before + Completed(r, |before|) + [Exit(r.state)]
                       else before + Completed(r, |before|)
  {
  }

  // ----- the engine -----

  datatype Machine<E> = Machine(started: bool, state: nat, trace: Trace<E>)

  datatype Op<E> = Start | Send(event: E) | ForceStop | Deinit

  function Settle<E>(r: Resolution<E>, started: bool): (Machine<E>, ErrorCode) {
    (Machine(started, r.state, r.trace), r.code)
  }

  function Apply<E>(c: Config<E>, m: Machine<E>, op: Op<E>): (Machine<E>, ErrorCode)
    requires ValidConfig(c)
  {
    match op
    case Start =>
      if m.started then (m, ErrNoop)
      else
        var entry := Entry(c.initialState);
        var r := Resolve(c, c.initialState, c.handlers(entry, m.trace), m.trace + [entry], 0);
        Settle(r, r.code == ErrNone)
    case Send(e) =>
      if !m.started then (m, ErrNotInitialised)
      else
        var event := Event(m.state, e);
        Settle(Resolve(c, m.state, c.handlers(event, m.trace), m.trace + [event], 0), true)
    case ForceStop =>
      if !m.started then (m, ErrNoop)
      else
        var exit := Exit(m.state);
        (Machine(false, m.state, m.trace + [exit]),
         if c.handlers(exit, m.trace) == m.state then ErrNone else ErrIncomplete)
    case Deinit => (Machine(false, c.initialState, m.trace), ErrNone)
  }

  // ----- what each call does -----

  /** The answer of the handler called last. */
  function AnswerOfLast<E>(c: Config<E>, trace: Trace<E>): nat
    requires trace != []
  {
    c.handlers(trace[|trace| - 1], trace[..|trace| - 1])
  }

  /** How a machine that made `n` transitions, `whole` being all calls up to their end, comes to
      rest in `state` after the calls `trace`. TIMEOUT: the cap was reached. NONE: below the cap,
      the last handler called names the state. OUT_OF_BOUNDS: below the cap, one more exit was
      called for a pending request, and what it leads to is no state of the machine. */
  ghost predicate Rests<E>(c: Config<E>, whole: Trace<E>, trace: Trace<E>, state: nat, code: ErrorCode, n: nat)
    requires whole != []
  {
    && n <= c.maxTransitionCount
    && (code == ErrTimeout <==> n == c.maxTransitionCount)
    && (code == ErrNone <==>
          n < c.maxTransitionCount && trace == whole && AnswerOfLast(c, whole) == state)
    && (code == ErrOutOfBounds <==>
          && n < c.maxTransitionCount && trace == whole + [Exit(state)]
          && AnswerOfLast(c, whole) != state
          && var onExit := c.handlers(Exit(state), whole);
             (if onExit == state then AnswerOfLast(c, whole) else onExit) >= c.stateCount)
    && (code == ErrTimeout ==> trace == whole)
    && (code == ErrNone || code == ErrTimeout || code == ErrOutOfBounds)
  }

  /** From `from`, having called `first` after `before`, the machine follows that handler's
      answer: as many transitions as there are pairs of calls, each made for a pending request,
      and then rests. */
  ghost predicate Follows<E>(
    c: Config<E>, before: Trace<E>, first: Call<E>, from: nat, next: Machine<E>, code: ErrorCode)
  {
    var called := before + [first];
    && called <= next.trace
    && var n := (|next.trace| - |called|) / 2;
    var whole := next.trace[..|called| + 2 * n];
    && Hops(c, called, whole[|called|..], from, c.handlers(first, before), next.state, n)
    && Rests(c, whole, next.trace, next.state, code, n)
  }

  lemma ResolutionFollows<E>(c: Config<E>, before: Trace<E>, first: Call<E>, from: nat, started: bool)
    requires from < c.stateCount
    ensures var r := Resolve(c, from, c.handlers(first, before), before + [first], 0);
            Follows(c, before, first, from, Machine(started, r.state, r.trace), r.code)
  {
    hide Resolve, Hops;
    var called, asked := before + [first], c.handlers(first, before);
    var r := Resolve(c, from, asked, called, 0);
    ResolutionClassified(c, from, asked, called, 0);
    ResolutionHops(c, from, asked, called, 0);
    assert called[|before|] == first && called[..|before|] == before;
    if r.code == ErrTimeout {
      HopsLength(c, called, Completed(r, |called|), from, asked, r.state, r.transitions);
    }
    var whole := r.trace[..|called| + 2 * r.transitions];
    assert Completed(r, |called|) == whole[|called|..];
    LastAnswerIsOfLast(c, called, whole);
    if r.code == ErrOutOfBounds {
      assert r.trace == whole + [Exit(r.state)];
    } else {
      assert r.trace == whole;
    }
  }

  lemma LastAnswerIsOfLast<E>(c: Config<E>, called: Trace<E>, trace: Trace<E>)
    requires called != [] && called <= trace
    ensures AnswerOfLast(c, trace) == LastAnswer(c, AnswerOfLast(c, called), trace, |called|)
  {
    if |trace| == |called| {
      assert trace == called;
    }
  }

  lemma {:induction false} HopsLength<E>(
    c: Config<E>, before: Trace<E>, calls: Trace<E>, from: nat, pending: nat, to: nat, n: nat)
    requires Hops(c, before, calls, from, pending, to, n)
    ensures |calls| == 2 * n
    decreases n
  {
    if n > 0 {
      var exited, target := before + [Exit(from)], calls[1].state;
      HopsLength(c, exited + [Entry(target)], calls[2..], target, c.handlers(Entry(target), exited), to, n - 1);
    }
  }

  /** The first of several transitions, and the rest of them. */
  lemma HopsFirst<E>(c: Config<E>, before: Trace<E>, calls: Trace<E>, from: nat, pending: nat, to: nat, n: nat)
    requires n > 0 && Hops(c, before, calls, from, pending, to, n)
    ensures var target := Target(from, pending, c.handlers(Exit(from), before));
            var entered := before + [Exit(from)] + [Entry(target)];
            && |calls| >= 2 && calls == [Exit(from), Entry(target)] + calls[2..]
            && Hops(c, entered, calls[2..], target, AnswerOfLast(c, entered), to, n - 1)
  {
    AnswerOfSnoc(c, before + [Exit(from)], calls[1]);
  }

  lemma NoHops<E>(c: Config<E>, before: Trace<E>, calls: Trace<E>, from: nat, pending: nat, to: nat)
    requires Hops(c, before, calls, from, pending, to, 0)
    ensures calls == [] && from == to
  {
  }

  /** Transitions from the same request are the same, as far as both go. */
  lemma {:induction false} HopsAgree<E>(
    c: Config<E>, before: Trace<E>, from: nat,
    calls: Trace<E>, to: nat, n: nat, more: Trace<E>, far: nat, m: nat)
    requires before != [] && n <= m
    requires Hops(c, before, calls, from, AnswerOfLast(c, before), to, n)
    requires Hops(c, before, more, from, AnswerOfLast(c, before), far, m)
    ensures |calls| <= |more| && calls == more[..|calls|]
    ensures Hops(c, before + calls, more[|calls|..], to, AnswerOfLast(c, before + calls), far, m - n)
    decreases n
  {
    hide Hops, AnswerOfLast;
    var pending := AnswerOfLast(c, before);
    if n == 0 {
      NoHops(c, before, calls, from, pending, to);
      assert before + calls == before && more[0..] == more;
    } else {
      HopsFirst(c, before, calls, from, pending, to, n);
      HopsFirst(c, before, more, from, pending, far, m);
      var target := Target(from, pending, c.handlers(Exit(from), before));
      var entered, rest, others := before + [Exit(from)] + [Entry(target)], calls[2..], more[2..];
      HopsAgree(c, entered, target, rest, to, n - 1, others, far, m - 1);
      assert entered + rest == before + calls;
      assert others[|rest|..] == more[|calls|..];
    }
  }

  /** Nothing else is left open: a request, once made, determines trace, state and code. */
  lemma FollowsDetermines<E>(
    c: Config<E>, before: Trace<E>, first: Call<E>, from: nat,
    next: Machine<E>, code: ErrorCode, other: Machine<E>, otherCode: ErrorCode)
    requires Follows(c, before, first, from, next, code) && Follows(c, before, first, from, other, otherCode)
    ensures next.state == other.state && next.trace == other.trace && code == otherCode
  {
    if |next.trace| <= |other.trace| {
      ShorterDetermines(c, before, first, from, next, code, other, otherCode);
    } else {
      ShorterDetermines(c, before, first, from, other, otherCode, next, code);
    }
  }

  lemma ShorterDetermines<E>(
    c: Config<E>, before: Trace<E>, first: Call<E>, from: nat,
    next: Machine<E>, code: ErrorCode, other: Machine<E>, otherCode: ErrorCode)
    requires Follows(c, before, first, from, next, code) && Follows(c, before, first, from, other, otherCode)
    requires |next.trace| <= |other.trace|
    ensures next.state == other.state && next.trace == other.trace && code == otherCode
  {
    hide Hops, Rests, AnswerOfLast;
    var called := before + [first];
    AnswerOfSnoc(c, before, first);
    var n, m := (|next.trace| - |called|) / 2, (|other.trace| - |called|) / 2;
    var whole, far := next.trace[..|called| + 2 * n], other.trace[..|called| + 2 * m];
    var calls, more := whole[|called|..], far[|called|..];
    HopsAgree(c, called, from, calls, next.state, n, more, other.state, m);
    assert whole == called + calls && far == called + more;
    RestsWithinCap(c, far, other.trace, other.state, otherCode, m);
    if n < m {
      StopsForAReason(c, whole, next.trace, next.state, code, n, more[|calls|..], other.state, m - n);
    } else {
      assert calls == more;
      RestsOnce(c, whole, next, code, other, otherCode, more[|calls|..], n);
    }
  }

  lemma RestsWithinCap<E>(c: Config<E>, whole: Trace<E>, trace: Trace<E>, state: nat, code: ErrorCode, n: nat)
    requires whole != [] && Rests(c, whole, trace, state, code, n)
    ensures n <= c.maxTransitionCount
  {
  }

  lemma AnswerOfSnoc<E>(c: Config<E>, before: Trace<E>, first: Call<E>)
    ensures AnswerOfLast(c, before + [first]) == c.handlers(first, before)
  {
    assert (before + [first])[..|before|] == before;
  }

  /** A machine that rests below the cap has no further transition to make. */
  lemma StopsForAReason<E>(
    c: Config<E>, whole: Trace<E>, trace: Trace<E>, state: nat, code: ErrorCode, n: nat,
    more: Trace<E>, far: nat, k: nat)
    requires whole != [] && Rests(c, whole, trace, state, code, n) && n < c.maxTransitionCount && k > 0
    ensures !Hops(c, whole, more, state, AnswerOfLast(c, whole), far, k)
  {
  }

  lemma RestsOnce<E>(
    c: Config<E>, whole: Trace<E>, next: Machine<E>, code: ErrorCode, other: Machine<E>, otherCode: ErrorCode,
    more: Trace<E>, n: nat)
    requires whole != [] && Hops(c, whole, more, next.state, AnswerOfLast(c, whole), other.state, 0)
    requires Rests(c, whole, next.trace, next.state, code, n)
    requires Rests(c, whole, other.trace, other.state, otherCode, n)
    ensures next.state == other.state && next.trace == other.trace && code == otherCode
  {
  }

  /** A call that the engine's status makes it refuse: a start of a running machine, an event
      or a stop to a stopped one. */
  predicate Refused<E>(m: Machine<E>, op: Op<E>) {
    match op
    case Start => m.started
    case Send(_) => !m.started
    case ForceStop => !m.started
    case Deinit => false
  }

  /** What every call does. A refused one changes nothing, and only such a call or a deinit
      makes no callback. A start enters the initial state, an event goes to the current state,
      and both follow the answer of the handler called; a start that does not settle leaves
      the machine stopped. A stop calls the exit of the current state, stays in it, and says
      whether the handler named another. */
  lemma CallExplained<E>(c: Config<E>, m: Machine<E>, op: Op<E>)
    requires ValidConfig(c) && m.state < c.stateCount
    ensures var (next, code) := Apply(c, m, op);
            && (Refused(m, op) ==> next == m && code == (if op.Send? then ErrNotInitialised else ErrNoop))
            && (Refused(m, op) <==> code == ErrNotInitialised || code == ErrNoop)
            && (next.trace == m.trace <==> Refused(m, op) || op.Deinit?)
            && (!Refused(m, op) ==>
                  match op
                  case Start =>
                    && Follows(c, m.trace, Entry(c.initialState), c.initialState, next, code)
                    && (next.started <==> code == ErrNone)
                  case Send(e) =>
                    Follows(c, m.trace, Event(m.state, e), m.state, next, code) && next.started
                  case ForceStop =>
                    && next == Machine(false, m.state, m.trace + [Exit(m.state)])
                    && (code == ErrNone <==> AnswerOfLast(c, next.trace) == m.state)
                    && (code != ErrNone ==> code == ErrIncomplete)
                  case Deinit =>
                    !next.started && next.state == c.initialState && code == ErrNone)
  {
    hide Resolve, Hops;
    match op
    case Start =>
      ResolutionFollows(c, m.trace, Entry(c.initialState), c.initialState, true);
      ResolutionFollows(c, m.trace, Entry(c.initialState), c.initialState, false);
    case Send(e) => ResolutionFollows(c, m.trace, Event(m.state, e), m.state, true);
    case ForceStop => assert (m.trace + [Exit(m.state)])[..|m.trace|] == m.trace;
    case Deinit =>
  }

  /** The engine's own record agrees with the callbacks made. */
  predicate InSync<E>(m: Machine<E>) {
    Scan(m.trace) == if m.started then Inside(m.state) else Outside
  }

  /** The calls after which the record and the callbacks disagree. */
  predicate LosesSync<E>(m: Machine<E>, op: Op<E>, code: ErrorCode) {
    || (op.Send? && code == ErrOutOfBounds)
    || (op.Start? && code == ErrTimeout)
    || (op.Deinit? && m.started)
  }

  /** Every call keeps the state in range, extends an unbroken trace to an unbroken one,
      and keeps sync exactly when its code is not one of those. */
  lemma StepSyncIff<E>(c: Config<E>, m: Machine<E>, op: Op<E>)
    requires ValidConfig(c) && m.state < c.stateCount && InSync(m)
    ensures var (next, code) := Apply(c, m, op);
            && next.state < c.stateCount
            && m.trace <= next.trace && Scan(next.trace) != Broken
            && (InSync(next) <==> !LosesSync(m, op, code))
  {
    hide Resolve, Scan;
    match op
    case Start =>
      if !m.started {
        var trace := m.trace + [Entry(c.initialState)];
        ScanSnoc(m.trace, Entry(c.initialState));
        var requested := c.handlers(Entry(c.initialState), m.trace);
        ResolutionClassified(c, c.initialState, requested, trace, 0);
        ScanResolution(c, c.initialState, requested, trace);
      }
    case Send(e) =>
      if m.started {
        var trace := m.trace + [Event(m.state, e)];
        ScanSnoc(m.trace, Event(m.state, e));
        var requested := c.handlers(Event(m.state, e), m.trace);
        ResolutionClassified(c, m.state, requested, trace, 0);
        ScanResolution(c, m.state, requested, trace);
      }
    case ForceStop => ScanSnoc(m.trace, Exit(m.state));
    case Deinit =>
  }

  /** Each session opens with the initial state's entry. */
  lemma SessionOpensWithInitialEntry<E>(c: Config<E>, m: Machine<E>)
    requires ValidConfig(c) && !m.started
    ensures var (next, code) := Apply(c, m, Start);
            && |m.trace| < |next.trace| && next.trace[|m.trace|] == Entry(c.initialState)
            && (next.started <==> code == ErrNone)
  {
    ResolutionClassified(c, c.initialState, c.handlers(Entry(c.initialState), m.trace),
                         m.trace + [Entry(c.initialState)], 0);
  }

  // ----- whole runs -----

  function Run<E>(c: Config<E>, m: Machine<E>, ops: seq<Op<E>>): Machine<E>
    requires ValidConfig(c)
    decreases |ops|
  {
    if ops == [] then m else Run(c, Apply(c, m, ops[0]).0, ops[1..])
  }

  ghost predicate StaysInSync<E>(c: Config<E>, m: Machine<E>, ops: seq<Op<E>>)
    requires ValidConfig(c)
    decreases |ops|
  {
    InSync(m) && (ops == [] || StaysInSync(c, Apply(c, m, ops[0]).0, ops[1..]))
  }

  predicate NeverLosesSync<E>(c: Config<E>, m: Machine<E>, ops: seq<Op<E>>)
    requires ValidConfig(c)
    decreases |ops|
  {
    ops == [] ||
    (&& !LosesSync(m, ops[0], Apply(c, m, ops[0]).1)
     && NeverLosesSync(c, Apply(c, m, ops[0]).0, ops[1..]))
  }

  /** Over every run, record and callbacks agree throughout exactly when no call lost
      sync; the trace is then bracketed, and ends inside the current state if started. */
  lemma {:induction false} RunSyncIff<E>(c: Config<E>, m: Machine<E>, ops: seq<Op<E>>)
    requires ValidConfig(c) && m.state < c.stateCount && InSync(m)
    ensures StaysInSync(c, m, ops) <==> NeverLosesSync(c, m, ops)
    ensures NeverLosesSync(c, m, ops) ==>
              InSync(Run(c, m, ops)) && Scan(Run(c, m, ops).trace) != Broken
    decreases |ops|
  {
    if ops != [] {
      StepSyncIff(c, m, ops[0]);
      var next := Apply(c, m, ops[0]).0;
      if InSync(next) {
        RunSyncIff(c, next, ops[1..]);
      } else {
        assert !StaysInSync(c, next, ops[1..]);
      }
    }
  }

  /** The current state is in range after every run, in sync or not. */
  lemma {:induction false} RunStaysInRange<E>(c: Config<E>, m: Machine<E>, ops: seq<Op<E>>)
    requires ValidConfig(c) && m.state < c.stateCount
    ensures Run(c, m, ops).state < c.stateCount
    decreases |ops|
  {
    if ops != [] {
      ApplyExtends(c, m, ops[0]);
      RunStaysInRange(c, Apply(c, m, ops[0]).0, ops[1..]);
    }
  }

  // ----- exactly when a run breaks the bracketing -----

  /** Known before the call: an event or stop that would go to a machine running outside any
      state, or a start of a stopped machine still inside one. */
  predicate Clashes<E>(m: Machine<E>, op: Op<E>) {
    || (m.started && Scan(m.trace) == Outside && (op.Send? || op.ForceStop?))
    || (!m.started && Scan(m.trace).Inside? && op.Start?)
  }

  /** Unbroken so far and, if running inside a state, inside the current one. */
  predicate Coherent<E>(m: Machine<E>) {
    && Scan(m.trace) != Broken
    && (m.started && Scan(m.trace).Inside? ==> Scan(m.trace) == Inside(m.state))
  }

  /** Every call only adds to the trace, and keeps the state in range. */
  lemma ApplyExtends<E>(c: Config<E>, m: Machine<E>, op: Op<E>)
    requires ValidConfig(c) && m.state < c.stateCount
    ensures m.trace <= Apply(c, m, op).0.trace && Apply(c, m, op).0.state < c.stateCount
  {
    if op.Start? && !m.started {
      var entry := Entry(c.initialState);
      ResolutionClassified(c, c.initialState, c.handlers(entry, m.trace), m.trace + [entry], 0);
    } else if op.Send? && m.started {
      var event := Event(m.state, op.event);
      ResolutionClassified(c, m.state, c.handlers(event, m.trace), m.trace + [event], 0);
    }
  }

  /** A call breaks the bracketing exactly when it clashes, and otherwise stays coherent. */
  lemma StepBreaksIffClashes<E>(c: Config<E>, m: Machine<E>, op: Op<E>)
    requires ValidConfig(c) && m.state < c.stateCount && Coherent(m)
    ensures Scan(Apply(c, m, op).0.trace) == Broken <==> Clashes(m, op)
    ensures !Clashes(m, op) ==> Coherent(Apply(c, m, op).0)
  {
    hide Resolve, Scan;
    match op
    case Start =>
      if !m.started {
        FirstCallDecides(c, m.trace, Entry(c.initialState), c.initialState);
      }
    case Send(e) =>
      if m.started {
        FirstCallDecides(c, m.trace, Event(m.state, e), m.state);
      }
    case ForceStop => ScanSnoc(m.trace, Exit(m.state));
    case Deinit =>
  }

  /** The call that opens a start or an event decides; the resolution after it breaks nothing. */
  lemma FirstCallDecides<E>(c: Config<E>, before: Trace<E>, call: Call<E>, state: nat)
    requires ValidConfig(c) && state < c.stateCount
    requires call == Entry(state) || (call.Event? && call.state == state)
    ensures var r := Resolve(c, state, c.handlers(call, before), before + [call], 0);
            && (Scan(r.trace) == Broken <==> Advance(Scan(before), call) == Broken)
            && (Scan(r.trace) != Broken ==>
                  Scan(r.trace) == if r.code == ErrOutOfBounds then Outside else Inside(r.state))
  {
    hide Resolve, Scan;
    var trace := before + [call];
    var r := Resolve(c, state, c.handlers(call, before), trace, 0);
    ScanSnoc(before, call);
    ResolutionClassified(c, state, c.handlers(call, before), trace, 0);
    if Scan(trace) == Broken {
      BrokenStays(trace, r.trace);
    } else {
      ScanResolution(c, state, c.handlers(call, before), trace);
    }
  }

  lemma BrokenStays<E>(calls: Trace<E>, more: Trace<E>)
    requires calls <= more && Scan(calls) == Broken
    ensures Scan(more) == Broken
  {
    assert more[..|calls|] == calls;
    if Scan(more) != Broken {
      ScanPrefix(more, |calls|);
    }
  }

  lemma {:induction false} RunExtends<E>(c: Config<E>, m: Machine<E>, ops: seq<Op<E>>)
    requires ValidConfig(c) && m.state < c.stateCount
    ensures m.trace <= Run(c, m, ops).trace
    decreases |ops|
  {
    if ops != [] {
      ApplyExtends(c, m, ops[0]);
      RunExtends(c, Apply(c, m, ops[0]).0, ops[1..]);
    }
  }

  predicate SomeCallClashes<E>(c: Config<E>, m: Machine<E>, ops: seq<Op<E>>)
    requires ValidConfig(c)
    decreases |ops|
  {
    ops != [] && (Clashes(m, ops[0]) || SomeCallClashes(c, Apply(c, m, ops[0]).0, ops[1..]))
  }

  /** Over every run, the trace is no longer bracketed exactly when some call clashed. */
  lemma {:induction false} RunBreaksIffClashes<E>(c: Config<E>, m: Machine<E>, ops: seq<Op<E>>)
    requires ValidConfig(c) && m.state < c.stateCount && Coherent(m)
    ensures Scan(Run(c, m, ops).trace) == Broken <==> SomeCallClashes(c, m, ops)
    decreases |ops|
  {
    hide Apply, Scan;
    if ops != [] {
      var next := Apply(c, m, ops[0]).0;
      StepBreaksIffClashes(c, m, ops[0]);
      ApplyExtends(c, m, ops[0]);
      if Clashes(m, ops[0]) {
        RunExtends(c, next, ops[1..]);
        BrokenStays(next.trace, Run(c, next, ops[1..]).trace);
      } else {
        RunBreaksIffClashes(c, next, ops[1..]);
      }
    }
  }

  // ----- the same, from calls and codes alone -----

  /** What a caller can know who sees only its own calls and their codes. */
  datatype Watch = Stopped | Running | Exited | Entered

  function Observe<E>(w: Watch, op: Op<E>, code: ErrorCode): Watch {
    match op
    case Start =>
      if w != Stopped then w
      else if code == ErrNone then Running
      else if code == ErrTimeout then Entered
      else Stopped
    case Send(_) => if w == Running && code == ErrOutOfBounds then Exited else w
    case ForceStop => if w == Running then Stopped else w
    case Deinit => if w == Running then Entered else if w == Exited then Stopped else w
  }

  /** The next call will break the bracketing. */
  predicate Forbids<E>(w: Watch, op: Op<E>) {
    (w == Exited && (op.Send? || op.ForceStop?)) || (w == Entered && op.Start?)
  }

  predicate Agrees<E>(w: Watch, m: Machine<E>) {
    match w
    case Stopped => !m.started && Scan(m.trace) == Outside
    case Running => m.started && Scan(m.trace) == Inside(m.state)
    case Exited => m.started && Scan(m.trace) == Outside
    case Entered => !m.started && Scan(m.trace).Inside?
  }

  lemma WatchStep<E>(c: Config<E>, w: Watch, m: Machine<E>, op: Op<E>)
    requires ValidConfig(c) && m.state < c.stateCount && Agrees(w, m)
    ensures Forbids(w, op) <==> Clashes(m, op)
    ensures var (next, code) := Apply(c, m, op);
            !Forbids(w, op) ==> Agrees(Observe(w, op, code), next)
  {
    hide Resolve, Scan;
    match op
    case Start =>
      if !m.started {
        var entry := Entry(c.initialState);
        FirstCallDecides(c, m.trace, entry, c.initialState);
        ResolutionClassified(c, c.initialState, c.handlers(entry, m.trace), m.trace + [entry], 0);
      }
    case Send(e) =>
      if m.started {
        FirstCallDecides(c, m.trace, Event(m.state, e), m.state);
      }
    case ForceStop => ScanSnoc(m.trace, Exit(m.state));
    case Deinit =>
  }

  function Codes<E>(c: Config<E>, m: Machine<E>, ops: seq<Op<E>>): (codes: seq<ErrorCode>)
    requires ValidConfig(c)
    ensures |codes| == |ops|
    decreases |ops|
  {
    if ops == [] then []
    else
      var (next, code) := Apply(c, m, ops[0]);
      [code] + Codes(c, next, ops[1..])
  }

  /** Reading a log of calls and codes, the watch meets a call it forbids. */
  predicate Rejects<E>(w: Watch, ops: seq<Op<E>>, codes: seq<ErrorCode>)
    requires |codes| == |ops|
    decreases |ops|
  {
    ops != [] &&
    (Forbids(w, ops[0]) || Rejects(Observe(w, ops[0], codes[0]), ops[1..], codes[1..]))
  }

  /** Over every run, the trace of callbacks is no longer bracketed exactly when the log of
      calls and codes says so. */
  lemma {:induction false} RunBreaksIffLogRejected<E>(c: Config<E>, w: Watch, m: Machine<E>, ops: seq<Op<E>>)
    requires ValidConfig(c) && m.state < c.stateCount && Agrees(w, m)
    ensures Scan(Run(c, m, ops).trace) == Broken <==> Rejects(w, ops, Codes(c, m, ops))
    decreases |ops|
  {
    RunBreaksIffClashes(c, m, ops);
    if ops != [] {
      var (next, code) := Apply(c, m, ops[0]);
      WatchStep(c, w, m, ops[0]);
      ApplyExtends(c, m, ops[0]);
      if !Forbids(w, ops[0]) {
        hide Apply, Scan;
        assert Codes(c, m, ops)[1..] == Codes(c, next, ops[1..]);
        RunBreaksIffLogRejected(c, Observe(w, ops[0], code), next, ops[1..]);
      }
    }
  }

  // ----- what losing sync leads to, and what rules it out -----

  /** After an event that went out of bounds, the next event or stop reaches a state
      already exited; after a start that timed out, the next start enters a second state. */
  lemma LostSyncBreaksTrace<E>(c: Config<E>, m: Machine<E>, op: Op<E>, e: E)
    requires ValidConfig(c) && m.state < c.stateCount && InSync(m)
    ensures var (next, code) := Apply(c, m, op);
            && (op.Send? && code == ErrOutOfBounds ==>
                  && Scan(next.trace + [Event(next.state, e)]) == Broken
                  && Scan(Apply(c, next, ForceStop).0.trace) == Broken)
            && (op.Start? && code == ErrTimeout ==>
                  Scan(next.trace + [Entry(c.initialState)]) == Broken)
  {
    StepSyncIff(c, m, op);
    var (next, code) := Apply(c, m, op);
    ScanSnoc(next.trace, Event(next.state, e));
    ScanSnoc(next.trace, Exit(next.state));
    ScanSnoc(next.trace, Entry(c.initialState));
    if op.Send? && code == ErrOutOfBounds {
      var event := Event(m.state, op.event);
      ScanSnoc(m.trace, event);
      ScanResolution(c, m.state, c.handlers(event, m.trace), m.trace + [event]);
    } else if op.Start? && code == ErrTimeout {
      var entry := Entry(c.initialState);
      ScanSnoc(m.trace, entry);
      ScanResolution(c, c.initialState, c.handlers(entry, m.trace), m.trace + [entry]);
    }
  }

  ghost predicate InRangeHandlers<E(!new)>(c: Config<E>) {
    forall call, before :: c.handlers(call, before) < c.stateCount
  }

  /** Handlers that only name states of the machine never drive it out of bounds. */
  lemma {:induction false} InRangeHandlersStayInBounds<E(!new)>(
    c: Config<E>, state: nat, requested: nat, trace: Trace<E>, done: nat)
    requires InRangeHandlers(c)
    requires done <= c.maxTransitionCount && requested < c.stateCount
    ensures Resolve(c, state, requested, trace, done).code != ErrOutOfBounds
    decreases c.maxTransitionCount - done
  {
    if done < c.maxTransitionCount && requested != state {
      var exited := trace + [Exit(state)];
      var target := Target(state, requested, c.handlers(Exit(state), trace));
      InRangeHandlersStayInBounds(c, target, c.handlers(Entry(target), exited), exited + [Entry(target)], done + 1);
    }
  }

  /** No call of the run is refused for a state the machine does not have. */
  predicate StaysInBounds<E>(c: Config<E>, m: Machine<E>, ops: seq<Op<E>>)
    requires ValidConfig(c)
    decreases |ops|
  {
    ops == [] ||
    (&& Apply(c, m, ops[0]).1 != ErrOutOfBounds
     && StaysInBounds(c, Apply(c, m, ops[0]).0, ops[1..]))
  }

  /** Some start of the run finds a stopped machine still inside a state. */
  predicate SomeStartReenters<E>(c: Config<E>, m: Machine<E>, ops: seq<Op<E>>)
    requires ValidConfig(c)
    decreases |ops|
  {
    ops != [] &&
    ((ops[0].Start? && !m.started && Scan(m.trace).Inside?)
     || SomeStartReenters(c, Apply(c, m, ops[0]).0, ops[1..]))
  }

  lemma InRangeStep<E(!new)>(c: Config<E>, m: Machine<E>, op: Op<E>)
    requires ValidConfig(c) && InRangeHandlers(c)
    ensures Apply(c, m, op).1 != ErrOutOfBounds
  {
    hide Resolve;
    if op.Start? && !m.started {
      var entry := Entry(c.initialState);
      InRangeHandlersStayInBounds(c, c.initialState, c.handlers(entry, m.trace), m.trace + [entry], 0);
    } else if op.Send? && m.started {
      var event := Event(m.state, op.event);
      InRangeHandlersStayInBounds(c, m.state, c.handlers(event, m.trace), m.trace + [event], 0);
    }
  }

  lemma {:induction false} InRangeRunStaysInBounds<E(!new)>(c: Config<E>, m: Machine<E>, ops: seq<Op<E>>)
    requires ValidConfig(c) && InRangeHandlers(c)
    ensures StaysInBounds(c, m, ops)
    decreases |ops|
  {
    if ops != [] {
      InRangeStep(c, m, ops[0]);
      InRangeRunStaysInBounds(c, Apply(c, m, ops[0]).0, ops[1..]);
    }
  }

  /** A call that stays in bounds leaves a running machine inside its state. */
  lemma InBoundsStepStaysInside<E>(c: Config<E>, m: Machine<E>, op: Op<E>)
    requires ValidConfig(c) && m.state < c.stateCount
    requires Coherent(m) && (m.started ==> Scan(m.trace).Inside?)
    requires Apply(c, m, op).1 != ErrOutOfBounds && !Clashes(m, op)
    ensures var next := Apply(c, m, op).0;
            Coherent(next) && (next.started ==> Scan(next.trace).Inside?)
  {
    hide Resolve, Scan;
    StepBreaksIffClashes(c, m, op);
    if op.Start? && !m.started {
      FirstCallDecides(c, m.trace, Entry(c.initialState), c.initialState);
    } else if op.Send? && m.started {
      FirstCallDecides(c, m.trace, Event(m.state, op.event), m.state);
    }
  }

  /** In a run that stays in bounds, the only calls that can break the bracketing are starts
      of a machine stopped inside a state, by a start that timed out or by a deinit. */
  lemma {:induction false} InBoundsRunBreaksIffReenters<E>(c: Config<E>, m: Machine<E>, ops: seq<Op<E>>)
    requires ValidConfig(c) && m.state < c.stateCount && StaysInBounds(c, m, ops)
    requires Coherent(m) && (m.started ==> Scan(m.trace).Inside?)
    ensures Scan(Run(c, m, ops).trace) == Broken <==> SomeStartReenters(c, m, ops)
    decreases |ops|
  {
    RunBreaksIffClashes(c, m, ops);
    if ops != [] && !Clashes(m, ops[0]) {
      hide Apply, Scan;
      var next := Apply(c, m, ops[0]).0;
      InBoundsStepStaysInside(c, m, ops[0]);
      ApplyExtends(c, m, ops[0]);
      RunBreaksIffClashes(c, next, ops[1..]);
      InBoundsRunBreaksIffReenters(c, next, ops[1..]);
    }
  }

  /** A machine of one state whose event handler asks for a state it does not have. */
  function StrayHandlers(call: Call<int>, before: Trace<int>): nat {
    if call.Event? then 1 else 0
  }

  /** It delivers its second event to a state it has already exited. */
  lemma OutOfBoundsEventBreaksBracketing(e: int)
    ensures var c := Config(StrayHandlers, 1, 0, 1);
            ValidConfig(c) && Scan(Run(c, Machine(false, 0, []), [Start, Send(e), Send(e)]).trace) == Broken
  {
    StrayRun(e);
    var trace: Trace<int> := [Entry(0), Event(0, e), Exit(0), Event(0, e), Exit(0)];
    var t1, t2, t3, t4 := trace[..1], trace[..2], trace[..3], trace[..4];
    assert t2 == t1 + [Event(0, e)] && t3 == t2 + [Exit(0)] && t4 == t3 + [Event(0, e)];
    assert trace == t4 + [Exit(0)];
    ScanSnoc(t1, Event(0, e));
    ScanSnoc(t2, Exit(0));
    ScanSnoc(t3, Event(0, e));
    ScanSnoc(t4, Exit(0));
  }

  lemma StrayRun(e: int)
    ensures var c := Config(StrayHandlers, 1, 0, 1);
            && ValidConfig(c)
            && Run(c, Machine(false, 0, []), [Start, Send(e), Send(e)]).trace
               == [Entry(0), Event(0, e), Exit(0), Event(0, e), Exit(0)]
  {
    var c := Config(StrayHandlers, 1, 0, 1);
    var m0, ops := Machine(false, 0, []), [Start, Send(e), Send(e)];
    var m1 := Machine(true, 0, [Entry(0)]);
    var m2 := Machine(true, 0, [Entry(0), Event(0, e), Exit(0)]);
    var m3 := Machine(true, 0, [Entry(0), Event(0, e), Exit(0), Event(0, e), Exit(0)]);
    assert Apply(c, m0, Start).0 == m1;
    assert Apply(c, m1, Send(e)).0 == m2;
    assert Apply(c, m2, Send(e)).0 == m3;
    hide Apply;
    assert ops[1..] == [Send(e), Send(e)] && ops[1..][1..] == [Send(e)] && ops[1..][1..][1..] == [];
    assert Run(c, m3, []) == m3;
    assert Run(c, m2, [Send(e)]) == m3;
    assert Run(c, m1, [Send(e), Send(e)]) == m3;
  }
}
