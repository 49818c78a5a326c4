/**
  The process-wide lifecycle `State` and the per-thread `ThreadState` with its
  history stack (core/state.hpp, core/state.cpp).

  The process state is one value written by `set_state`; the thread state is a
  value plus a stack of saved values written by `push_thread_state` and
  `pop_thread_state`. Atomics and thread-local storage are replaced by passing
  the current value in and getting the new value out.
 */
module Lifecycle {

  import Common

  // ---------------------------------------------------------------------------
  // Enumerations and their orderings
  // ---------------------------------------------------------------------------

  datatype State = PreInit | Init | Active | Finalized | Disabled

  datatype ThreadState = Enabled | Internal | Completed | Disabled

  datatype Mode = Trace | Sampling | Causal | Coverage

  datatype CausalBackend = Perf | Timer | Auto

  datatype CausalMode = Line | Function

  /** The underlying value of a `State` enumerator (declaration order from 0). */
  function StateValue(s: State): (r: nat)
    ensures r < 5
  {
    match s
    case PreInit => 0
    case Init => 1
    case Active => 2
    case Finalized => 3
    case Disabled => 4
  }

  /** The underlying value of a `ThreadState` enumerator. */
  function ThreadValue(t: ThreadState): (r: nat)
    ensures r < 4
  {
    match t
    case Enabled => 0
    case Internal => 1
    case Completed => 2
    case Disabled => 3
  }

  predicate StateLess(a: State, b: State) {
    StateValue(a) < StateValue(b)
  }

  /** The enumerators compare in declaration order, so Disabled lies above Finalized. */
  lemma StateOrder()
    ensures StateLess(State.PreInit, State.Init) && StateLess(State.Init, State.Active)
    ensures StateLess(State.Active, State.Finalized)
    ensures StateLess(State.Finalized, State.Disabled)
    ensures forall a, b :: StateValue(a) == StateValue(b) ==> a == b
  {
  }

  /**
    `get_thread_state() >= ThreadState::Completed`: the test that makes
    push and pop inert. It holds for exactly the two shut-down values.
   */
  function IsTerminal(t: ThreadState): (r: bool)
    ensures r <==> (t == Completed || t == ThreadState.Disabled)
  {
    ThreadValue(t) >= ThreadValue(Completed)
  }

  // ---------------------------------------------------------------------------
  // Process state
  // ---------------------------------------------------------------------------

  /** The value the process state holds before anything writes it. */
  const InitialState: State := PreInit

  /** What `set_state` did: stored the new value, or threw (CI builds only). */
  datatype SetResult =
    | Stored(previous: State, current: State)
    | Thrown(current: State)

  /**
    `set_state(n)` with the current value `cur`. A decreasing write throws only
    when CI mode is on; otherwise it is stored like any other write. The old
    value is returned.
   */
  function SetState(cur: State, n: State, ci: bool): (r: SetResult)
    ensures r.Thrown? <==> ci && StateLess(n, cur)
    ensures r.Thrown? ==> r.current == cur
    ensures r.Stored? ==> r.previous == cur && r.current == n
  {
    if ci && StateValue(n) < StateValue(cur) then Thrown(cur) else Stored(cur, n)
  }

  /**
    A run of `set_state` calls; `None` when one of them threw (the exception
    ends the run).
   */
  function SetStates(cur: State, ns: seq<State>, ci: bool): Common.Option<State>
    decreases |ns|
  {
    if |ns| == 0 then Common.Some(cur)
    else match SetState(cur, ns[0], ci)
      case Thrown(_) => Common.None
      case Stored(_, c) => SetStates(c, ns[1..], ci)
  }

  /** Every value the run writes, in order, starting with the initial one. */
  function Observed(cur: State, ns: seq<State>): seq<State>
  {
    [cur] + ns
  }

  /**
    In CI mode, a run that completes never saw the state decrease: each
    written value is at least the one before it.
   */
  lemma {:induction false} CiRunIsMonotone(cur: State, ns: seq<State>)
    requires SetStates(cur, ns, true).Some?
    decreases |ns|
    ensures forall i :: 0 <= i < |ns| ==> StateValue(Observed(cur, ns)[i]) <= StateValue(ns[i])
    ensures StateValue(cur) <= StateValue(SetStates(cur, ns, true).value)
  {
    if |ns| > 0 {
      assert !StateLess(ns[0], cur);
      CiRunIsMonotone(ns[0], ns[1..]);
      forall i | 0 <= i < |ns|
        ensures StateValue(Observed(cur, ns)[i]) <= StateValue(ns[i])
      {
        if i > 0 {
          assert Observed(cur, ns)[i] == Observed(ns[0], ns[1..])[i - 1];
          assert ns[i] == ns[1..][i - 1];
        }
      }
    }
  }

  /**
    Outside CI mode nothing is rejected: the run ends at the last value
    written, even when that moves the state backwards.
   */
  lemma {:induction false} NonCiRunStoresLast(cur: State, ns: seq<State>)
    requires |ns| > 0
    ensures SetStates(cur, ns, false) == Common.Some(ns[|ns| - 1])
    decreases |ns|
  {
    if |ns| > 1 {
      NonCiRunStoresLast(ns[0], ns[1..]);
    }
  }

  /**
    PreInit -> Init -> Active -> Finalized followed by a write of Init: CI mode
    throws and the state stays Finalized; otherwise the state becomes Init.
   */
  lemma BackwardsWriteAfterFinalize()
    ensures SetStates(InitialState, [Init, Active, Finalized], true) == Common.Some(Finalized)
    ensures SetState(Finalized, Init, true) == Thrown(Finalized)
    ensures SetStates(InitialState, [Init, Active, Finalized, Init], true).None?
    ensures SetStates(InitialState, [Init, Active, Finalized, Init], false) == Common.Some(Init)
  {
    NonCiRunStoresLast(InitialState, [Init, Active, Finalized, Init]);
  }

  // ---------------------------------------------------------------------------
  // Thread state and its history
  // ---------------------------------------------------------------------------

  /** One thread's state value and its history of saved values. */
  datatype ThreadCtx = ThreadCtx(state: ThreadState, history: seq<ThreadState>)

  /** Every thread starts Enabled with an empty history. */
  const InitialThread: ThreadCtx := ThreadCtx(Enabled, [])

  /** A call's returned value together with the thread context after it. */
  datatype ThreadStep = ThreadStep(ctx: ThreadCtx, returned: ThreadState)

  /** `set_thread_state(n)`: swap `n` in and return what was there. */
  function SetThreadState(ctx: ThreadCtx, n: ThreadState): (r: ThreadStep)
    ensures r.returned == ctx.state
    ensures r.ctx.state == n && r.ctx.history == ctx.history
  {
    ThreadStep(ctx.(state := n), ctx.state)
  }

  /**
    `push_thread_state(v)`: ignored once the thread is Completed or Disabled;
    otherwise swaps `v` in, saves the previous value on the history and
    returns that previous value.
   */
  function PushThreadState(ctx: ThreadCtx, v: ThreadState): (r: ThreadStep)
    ensures IsTerminal(ctx.state) ==> r == ThreadStep(ctx, ctx.state)
    ensures !IsTerminal(ctx.state) ==>
              r.ctx.state == v && r.ctx.history == ctx.history + [ctx.state] &&
              r.returned == ctx.state
  {
    if IsTerminal(ctx.state) then ThreadStep(ctx, ctx.state)
    else
      var s := SetThreadState(ctx, v);
      ThreadStep(s.ctx.(history := s.ctx.history + [s.returned]), s.returned)
  }

  /**
    `pop_thread_state()`: ignored once the thread is Completed or Disabled;
    otherwise restores and removes the newest saved value (nothing changes
    when the history is empty). Returns the resulting state.
   */
  function PopThreadState(ctx: ThreadCtx): (r: ThreadStep)
    ensures r.returned == r.ctx.state
    ensures IsTerminal(ctx.state) || |ctx.history| == 0 ==> r.ctx == ctx
    ensures !IsTerminal(ctx.state) && |ctx.history| > 0 ==>
              r.ctx.state == ctx.history[|ctx.history| - 1] &&
              r.ctx.history == ctx.history[..|ctx.history| - 1]
  {
    if IsTerminal(ctx.state) then ThreadStep(ctx, ctx.state)
    else if |ctx.history| == 0 then ThreadStep(ctx, ctx.state)
    else
      var h := ctx.history;
      var s := SetThreadState(ctx, h[|h| - 1]);
      var c := s.ctx.(history := h[..|h| - 1]);
      ThreadStep(c, c.state)
  }

  /**
    `scoped_thread_state`: push on construction, pop exactly once on
    destruction. When neither the thread nor the pushed value is terminal the
    guard leaves no trace; pushing Completed or Disabled makes the pop inert,
    so the thread stays at the pushed value.
   */
  function ScopedThreadState(ctx: ThreadCtx, v: ThreadState): (r: ThreadCtx)
    ensures !IsTerminal(ctx.state) && !IsTerminal(v) ==> r == ctx
    ensures !IsTerminal(ctx.state) && IsTerminal(v) ==>
              r.state == v && r.history == ctx.history + [ctx.state]
    ensures IsTerminal(ctx.state) ==> r == ctx
  {
    PopThreadState(PushThreadState(ctx, v).ctx).ctx
  }

  /**
    A thread that pushes Internal and is then set Disabled keeps Disabled
    across the following pop: pop does not restore Internal.
   */
  lemma DisabledMidScopeIsKept()
    ensures var pushed := PushThreadState(InitialThread, Internal).ctx;
            var disabled := SetThreadState(pushed, ThreadState.Disabled).ctx;
            PopThreadState(disabled).ctx == disabled &&
            PopThreadState(disabled).returned == ThreadState.Disabled
  {
  }

  /** Once a thread is terminal, no sequence of pushes and pops changes it. */
  lemma {:induction false} TerminalIsSticky(ctx: ThreadCtx, ops: seq<ThreadOp>)
    requires IsTerminal(ctx.state)
    ensures RunOps(ctx, ops) == ctx
  {
    if |ops| > 0 {
      TerminalIsSticky(ctx, ops[..|ops| - 1]);
    }
  }

  // ---------------------------------------------------------------------------
  // Stack balance over sequences of pushes and pops
  // ---------------------------------------------------------------------------

  datatype ThreadOp = Push(v: ThreadState) | Pop

  function ApplyOp(ctx: ThreadCtx, op: ThreadOp): ThreadCtx {
    match op
    case Push(v) => PushThreadState(ctx, v).ctx
    case Pop => PopThreadState(ctx).ctx
  }

  /** The context after performing `ops` in order. */
  function RunOps(ctx: ThreadCtx, ops: seq<ThreadOp>): ThreadCtx
    decreases |ops|
  {
    if |ops| == 0 then ctx else ApplyOp(RunOps(ctx, ops[..|ops| - 1]), ops[|ops| - 1])
  }

  /** Pushes minus pops. */
  function Depth(ops: seq<ThreadOp>): int
    decreases |ops|
  {
    if |ops| == 0 then 0
    else Depth(ops[..|ops| - 1]) + (if ops[|ops| - 1].Push? then 1 else -1)
  }

  /** No prefix pops more than it pushed. */
  ghost predicate NeverBelowStart(ops: seq<ThreadOp>) {
    forall k :: 0 <= k <= |ops| ==> Depth(ops[..k]) >= 0
  }

  /** Every push in `ops` is of a non-terminal value (Enabled or Internal). */
  ghost predicate PushesNonTerminal(ops: seq<ThreadOp>) {
    forall i :: 0 <= i < |ops| && ops[i].Push? ==> !IsTerminal(ops[i].v)
  }

  /** The saved values with the current one on top. */
  function Stack(ctx: ThreadCtx): seq<ThreadState> {
    ctx.history + [ctx.state]
  }

  /**
    `s` is `base` with `d` more values on top, none of them terminal.
   */
  ghost predicate StackAbove(s: seq<ThreadState>, base: seq<ThreadState>, d: int) {
    d >= 0 && |s| == |base| + d && s[..|base|] == base &&
    forall i :: |base| <= i < |s| ==> !IsTerminal(s[i])
  }

  /** One push of a non-terminal value, or one pop above the base, keeps the base in place. */
  lemma ApplyKeepsBase(prev: ThreadCtx, op: ThreadOp, base: seq<ThreadState>, d: int)
    requires |base| > 0 && !IsTerminal(base[|base| - 1])
    requires StackAbove(Stack(prev), base, d)
    requires op.Push? ==> !IsTerminal(op.v)
    requires op.Pop? ==> d >= 1
    ensures StackAbove(Stack(ApplyOp(prev, op)), base, d + (if op.Push? then 1 else -1))
  {
    var st := Stack(prev);
    assert prev.state == st[|st| - 1];
    if d == 0 {
      assert st == st[..|base|];
    }
    assert !IsTerminal(prev.state);
    var next := Stack(ApplyOp(prev, op));
    if op.Push? {
      assert next == st + [op.v];
      assert next[..|base|] == st[..|base|];
    } else {
      assert next == st[..|st| - 1];
      assert next[..|base|] == st[..|base|];
    }
  }

  /** The conditions on a run hold for the run without its last operation. */
  lemma RunPrefix(ops: seq<ThreadOp>)
    requires |ops| > 0 && PushesNonTerminal(ops) && NeverBelowStart(ops)
    ensures PushesNonTerminal(ops[..|ops| - 1]) && NeverBelowStart(ops[..|ops| - 1])
    ensures Depth(ops) >= 0 && Depth(ops[..|ops| - 1]) >= 0
  {
    var init := ops[..|ops| - 1];
    forall i | 0 <= i < |init| && init[i].Push?
      ensures !IsTerminal(init[i].v)
    {
      assert init[i] == ops[i];
    }
    forall k | 0 <= k <= |init|
      ensures Depth(init[..k]) >= 0
    {
      assert init[..k] == ops[..k];
    }
    assert ops[..|ops|] == ops;
    assert init[..|init|] == init;
  }

  /**
    While a thread never becomes terminal, push and pop act on
    `history + [state]` as a plain stack: after `ops` the original stack is
    still at the bottom, the extra part is as deep as the pushes outnumber the
    pops, and everything above the original consists of pushed values.
   */
  lemma {:induction false} StackDiscipline(ctx: ThreadCtx, ops: seq<ThreadOp>)
    requires !IsTerminal(ctx.state)
    requires PushesNonTerminal(ops)
    requires NeverBelowStart(ops)
    ensures StackAbove(Stack(RunOps(ctx, ops)), Stack(ctx), Depth(ops))
    ensures !IsTerminal(RunOps(ctx, ops).state)
    decreases |ops|
  {
    var base := Stack(ctx);
    if |ops| == 0 {
      assert base[..|base|] == base;
    } else {
      var init := ops[..|ops| - 1];
      RunPrefix(ops);
      StackDiscipline(ctx, init);
      var op := ops[|ops| - 1];
      ApplyKeepsBase(RunOps(ctx, init), op, base, Depth(init));
    }
    var r := Stack(RunOps(ctx, ops));
    assert RunOps(ctx, ops).state == r[|r| - 1];
    if Depth(ops) == 0 {
      assert r == r[..|base|];
    }
  }

  /**
    Stack balance: when the pushes are of Enabled or Internal and every pop
    is matched, the thread ends where it started, state and history alike.
   */
  lemma BalancedRunRestores(ctx: ThreadCtx, ops: seq<ThreadOp>)
    requires !IsTerminal(ctx.state)
    requires PushesNonTerminal(ops)
    requires NeverBelowStart(ops) && Depth(ops) == 0
    ensures RunOps(ctx, ops) == ctx
  {
    StackDiscipline(ctx, ops);
    var r := RunOps(ctx, ops);
    assert Stack(r) == Stack(ctx);
    assert r.history == Stack(r)[..|Stack(r)| - 1];
    assert ctx.history == Stack(ctx)[..|Stack(ctx)| - 1];
  }

  // ---------------------------------------------------------------------------
  // Names
  // ---------------------------------------------------------------------------

  /** `to_string(State)`: the enumerator's own name, which `StateOf` reads back. */
  function StateName(s: State): (r: string)
    ensures StateOf(r) == Common.Some(s)
  {
    match s
    case PreInit => "PreInit"
    case Init => "Init"
    case Active => "Active"
    case Disabled => "Disabled"
    case Finalized => "Finalized"
  }

  /** `to_string(ThreadState)`, read back by `ThreadStateOf`. */
  function ThreadStateName(t: ThreadState): (r: string)
    ensures ThreadStateOf(r) == Common.Some(t)
  {
    match t
    case Enabled => "Enabled"
    case Internal => "Internal"
    case Completed => "Completed"
    case Disabled => "Disabled"
  }

  /** `to_string(Mode)`, read back by `ModeOf`. */
  function ModeName(m: Mode): (r: string)
    ensures ModeOf(r) == Common.Some(m)
  {
    match m
    case Trace => "Trace"
    case Sampling => "Sampling"
    case Causal => "Causal"
    case Coverage => "Coverage"
  }

  /** `to_string(CausalMode)`, read back by `CausalModeOf`. */
  function CausalModeName(m: CausalMode): (r: string)
    ensures CausalModeOf(r) == Common.Some(m)
  {
    match m
    case Line => "Line"
    case Function => "Function"
  }

  /** The enumerator a state name stands for; the reference inverse of `StateName`. */
  function StateOf(n: string): Common.Option<State> {
    if n == "PreInit" then Common.Some(PreInit)
    else if n == "Init" then Common.Some(Init)
    else if n == "Active" then Common.Some(Active)
    else if n == "Disabled" then Common.Some(State.Disabled)
    else if n == "Finalized" then Common.Some(Finalized)
    else Common.None
  }

  function ThreadStateOf(n: string): Common.Option<ThreadState> {
    if n == "Enabled" then Common.Some(Enabled)
    else if n == "Internal" then Common.Some(Internal)
    else if n == "Completed" then Common.Some(Completed)
    else if n == "Disabled" then Common.Some(ThreadState.Disabled)
    else Common.None
  }

  function ModeOf(n: string): Common.Option<Mode> {
    if n == "Trace" then Common.Some(Trace)
    else if n == "Sampling" then Common.Some(Sampling)
    else if n == "Causal" then Common.Some(Causal)
    else if n == "Coverage" then Common.Some(Coverage)
    else Common.None
  }

  function CausalModeOf(n: string): Common.Option<CausalMode> {
    if n == "Line" then Common.Some(Line)
    else if n == "Function" then Common.Some(Function)
    else Common.None
  }

  /** Every `to_string` overload names distinct enumerators distinctly. */
  lemma NamesAreDistinct()
    ensures forall a, b :: StateName(a) == StateName(b) ==> a == b
    ensures forall a, b :: ThreadStateName(a) == ThreadStateName(b) ==> a == b
    ensures forall a, b :: ModeName(a) == ModeName(b) ==> a == b
    ensures forall a, b :: CausalModeName(a) == CausalModeName(b) ==> a == b
  {
  }
}
