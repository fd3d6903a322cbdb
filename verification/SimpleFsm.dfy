/** The engine object. Its callback trace stands for the user's context. */
module SimpleFsm {
  import opened Foundations
  import opened FsmSemantics

  class Fsm<E> {
    var config: Config<E>
    var started: bool
    var state: nat
    var trace: Trace<E>

    ghost predicate Valid()
      reads this
    {
      ValidConfig(config) && state < config.stateCount
    }

    ghost function View(): Machine<E>
      reads this
    {
      Machine(started, state, trace)
    }

    constructor (config: Config<E>)
      ensures this.config == config && View() == Machine(false, config.initialState, [])
    {
      this.config := config;
      started, state, trace := false, config.initialState, [];
    }

    method Init(config: Config<E>) returns (code: ErrorCode)
      modifies this
      ensures code == ErrNone <==>
                config.stateCount > 0 && config.maxTransitionCount > 0 && config.initialState < config.stateCount
      ensures code == ErrNone || code == ErrInvalidArg
      ensures code != ErrNone ==> unchanged(this)
      ensures code == ErrNone ==>
                Valid() && this.config == config && View() == Machine(false, config.initialState, old(trace))
    {
      if config.stateCount == 0 { return ErrInvalidArg; }
      if config.maxTransitionCount == 0 { return ErrInvalidArg; }
      if config.initialState >= config.stateCount { return ErrInvalidArg; }
      this.config := config;
      state := config.initialState;
      started := false;
      return ErrNone;
    }

    /** Runs one handler of the current configuration and records the call. */
    method Invoke(call: Call<E>) returns (answer: nat)
      modifies this`trace
      ensures answer == config.handlers(call, old(trace))
      ensures trace == old(trace) + [call]
    {
      answer := config.handlers(call, trace);
      trace := trace + [call];
    }

    method ResolveTransitions(request: nat) returns (code: ErrorCode)
      requires Valid()
      modifies this`state, this`trace
      ensures Valid()
      ensures var r := Resolve(config, old(state), request, old(trace), 0);
              code == r.code && state == r.state && trace == r.trace
    {
      var nextState, transitionsCount: nat := request, 0;
      var limitReached := false;
      while nextState != state && !limitReached
        invariant Valid()
        invariant transitionsCount <= config.maxTransitionCount
        invariant limitReached <==> transitionsCount == config.maxTransitionCount
        invariant Resolve(config, state, nextState, trace, transitionsCount)
                  == Resolve(config, old(state), request, old(trace), 0)
        decreases config.maxTransitionCount - transitionsCount
      {
        var onExit := Invoke(Exit(state));
        var requested := if onExit == state then nextState else onExit;
        if requested >= config.stateCount { return ErrOutOfBounds; }
        state := requested;
        nextState := Invoke(Entry(state));
        transitionsCount := transitionsCount + 1;
        limitReached := transitionsCount >= config.maxTransitionCount;
      }
      return if limitReached then ErrTimeout else ErrNone;
    }

    method Start() returns (code: ErrorCode)
      requires Valid()
      modifies this`started, this`state, this`trace
      ensures Valid()
      ensures (View(), code) == Apply(config, old(View()), Op.Start)
    {
      if started { return ErrNoop; }
      started := true;
      state := config.initialState;
      var nextState := Invoke(Entry(state));
      code := ResolveTransitions(nextState);
      if code != ErrNone {
        started := false;
      }
    }

    method ForceStop() returns (code: ErrorCode)
      requires Valid()
      modifies this`started, this`trace
      ensures Valid()
      ensures (View(), code) == Apply(config, old(View()), Op.ForceStop)
    {
      if !started { return ErrNoop; }
      var nextState := Invoke(Exit(state));
      started := false;
      return if nextState == state then ErrNone else ErrIncomplete;
    }

    method OnEvent(event: E) returns (code: ErrorCode)
      requires Valid()
      modifies this`state, this`trace
      ensures Valid()
      ensures (View(), code) == Apply(config, old(View()), Send(event))
    {
      if !started { return ErrNotInitialised; }
      var nextState := Invoke(Event(state, event));
      code := ResolveTransitions(nextState);
    }

    method Deinit()
      requires Valid()
      modifies this`started, this`state
      ensures Valid()
      ensures (View(), ErrNone) == Apply(config, old(View()), Op.Deinit)
    {
      state := config.initialState;
      started := false;
    }
  }

  /** The engine call for an operation; deinit returns nothing, recorded as success. */
  method Perform<E>(fsm: Fsm<E>, op: Op<E>) returns (code: ErrorCode)
    requires fsm.Valid()
    modifies fsm
    ensures fsm.Valid() && fsm.config == old(fsm.config)
    ensures (fsm.View(), code) == Apply(fsm.config, old(fsm.View()), op)
  {
    match op
    case Start => code := fsm.Start();
    case Send(e) => code := fsm.OnEvent(e);
    case ForceStop => code := fsm.ForceStop();
    case Deinit =>
      fsm.Deinit();
      code := ErrNone;
  }

  /** Any run of calls on the engine is the reference run, code by code. */
  method PerformAll<E>(fsm: Fsm<E>, ops: seq<Op<E>>) returns (codes: seq<ErrorCode>)
    requires fsm.Valid()
    modifies fsm
    ensures fsm.Valid() && fsm.config == old(fsm.config)
    ensures fsm.View() == Run(fsm.config, old(fsm.View()), ops)
    ensures codes == Codes(fsm.config, old(fsm.View()), ops)
  {
    hide Apply;
    codes := [];
    ghost var c, start := fsm.config, fsm.View();
    for n := 0 to |ops|
      invariant fsm.Valid() && fsm.config == c && |codes| == n
      invariant Run(c, fsm.View(), ops[n..]) == Run(c, start, ops)
      invariant codes + Codes(c, fsm.View(), ops[n..]) == Codes(c, start, ops)
    {
      ghost var before, rest := fsm.View(), ops[n..];
      assert rest[0] == ops[n] && rest[1..] == ops[n + 1..];
      var code := Perform(fsm, ops[n]);
      assert Codes(c, before, rest) == [code] + Codes(c, fsm.View(), rest[1..]);
      codes := codes + [code];
    }
  }

  /** From a state that `watch` describes, the trace of callbacks ends unbracketed exactly
      when the calls and their codes tell. */
  method PerformWatched<E>(fsm: Fsm<E>, ops: seq<Op<E>>, watch: Watch) returns (codes: seq<ErrorCode>, broken: bool)
    requires fsm.Valid() && Agrees(watch, fsm.View())
    modifies fsm
    ensures fsm.Valid() && broken == (Scan(fsm.trace) == Broken)
  {
    RunBreaksIffLogRejected(fsm.config, watch, fsm.View(), ops);
    codes := PerformAll(fsm, ops);
    broken := Rejects(watch, ops, codes);
  }
}
