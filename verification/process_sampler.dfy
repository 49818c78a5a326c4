/**
  The background process sampler (omnitrace/library/process_sampler.cpp):
  the list of sampled sources (ROCm SMI and CPU frequency), the polling
  loop that the sampler thread runs, and the setup / shutdown /
  post-processing sequence.

  Threads, sleeping and the clock are not executed: the polling loop is
  driven by a finite list of observations, one per iteration, each giving
  the values the loop reads from the sampler's state, the library state
  and the clock in that iteration. The hooks of each source are recorded
  as events in call order.
 */
module ProcessSampler {

  import Lifecycle

  /** The sampled sources, in the order `setup` registers them. */
  datatype Source = RocmSmi | CpuFreq

  /** The five hooks every registered source has. */
  datatype Hook = SetupHook | ShutdownHook | PostProcessHook | ConfigHook | SampleHook

  datatype Event = Event(source: Source, hook: Hook)

  /** One hook called on every source, in registration order. */
  function CallAll(sources: seq<Source>, h: Hook): (r: seq<Event>)
    ensures |r| == |sources|
    ensures forall i :: 0 <= i < |r| ==> r[i] == Event(sources[i], h)
  {
    seq(|sources|, i requires 0 <= i < |sources| => Event(sources[i], h))
  }

  predicate Below(s: Lifecycle.State, t: Lifecycle.State) {
    Lifecycle.StateLess(s, t)
  }

  // ---------------------------------------------------------------------------
  // The polling loop
  // ---------------------------------------------------------------------------

  /**
    What one iteration of `poll` reads: the sampler state and the library
    state in the loop condition, the sampler state and (twice) the library
    state in the body, and the clock at the end of a sampling round.
   */
  datatype Observation = Observation(
    guardLocal: Lifecycle.State,
    guardGlobal: Lifecycle.State,
    bodyLocal: Lifecycle.State,
    bodyGlobalFinalizedCheck: Lifecycle.State,
    bodyGlobalActiveCheck: Lifecycle.State,
    clock: int)

  /** Why the loop stopped. */
  datatype ExitReason =
    | StateFinalized        // the loop condition failed
    | LibraryFinalized      // `get_state() >= Finalized` in the body
    | DurationElapsed       // a round finished after the end time
    | ObservationsExhausted // the modelled run ends

  /** One iteration: leave the loop, skip this round, or sample and maybe leave. */
  datatype Tick = Leave(reason: ExitReason) | SkipRound | SampleRound(thenLeave: bool)

  /**
    The decision of one iteration of `poll`, given the time the iteration
    started waiting for (`now`) and the end time.
   */
  function TickOf(o: Observation, now: int, hasDuration: bool, end: int): (r: Tick)
    ensures r.SampleRound? ==> o.bodyLocal == Lifecycle.Active && o.bodyGlobalActiveCheck == Lifecycle.Active
    ensures r.SampleRound? ==> Below(o.guardLocal, Lifecycle.Finalized) && Below(o.guardGlobal, Lifecycle.Finalized)
    ensures r.SampleRound? ==> (r.thenLeave <==> hasDuration && now >= end)
    ensures r == Leave(StateFinalized) <==>
              !(Below(o.guardLocal, Lifecycle.Finalized) && Below(o.guardGlobal, Lifecycle.Finalized))
    ensures r.SampleRound? <==>
              Below(o.guardLocal, Lifecycle.Finalized) && Below(o.guardGlobal, Lifecycle.Finalized) &&
              o.bodyLocal == Lifecycle.Active && Below(o.bodyGlobalFinalizedCheck, Lifecycle.Finalized) &&
              o.bodyGlobalActiveCheck == Lifecycle.Active
    ensures r == Leave(LibraryFinalized) <==>
              Below(o.guardLocal, Lifecycle.Finalized) && Below(o.guardGlobal, Lifecycle.Finalized) &&
              o.bodyLocal == Lifecycle.Active && !Below(o.bodyGlobalFinalizedCheck, Lifecycle.Finalized)
    ensures r.Leave? ==> r.reason == StateFinalized || r.reason == LibraryFinalized
  {
    if !(Below(o.guardLocal, Lifecycle.Finalized) && Below(o.guardGlobal, Lifecycle.Finalized)) then Leave(StateFinalized)
    else if o.bodyLocal != Lifecycle.Active then SkipRound
    else if !Below(o.bodyGlobalFinalizedCheck, Lifecycle.Finalized) then Leave(LibraryFinalized)
    else if o.bodyGlobalActiveCheck != Lifecycle.Active then SkipRound
    else SampleRound(hasDuration && now >= end)
  }

  datatype PollOutcome = PollOutcome(rounds: nat, reason: ExitReason)

  /**
    The loop as a recursion over the observations from index `i`: the
    number of sampling rounds and why it stopped. After a round the next
    wake-up time is the clock plus the interval.
   */
  function PollFrom(obs: seq<Observation>, i: nat, now: int, hasDuration: bool, end: int, interval: nat): (r: PollOutcome)
    requires i <= |obs|
    ensures r.rounds <= |obs| - i
    decreases |obs| - i
  {
    if i == |obs| then PollOutcome(0, ObservationsExhausted)
    else match TickOf(obs[i], now, hasDuration, end)
      case Leave(reason) => PollOutcome(0, reason)
      case SkipRound => PollFrom(obs, i + 1, now, hasDuration, end, interval)
      case SampleRound(thenLeave) =>
        if thenLeave then PollOutcome(1, DurationElapsed)
        else
          var rest := PollFrom(obs, i + 1, obs[i].clock + interval, hasDuration, end, interval);
          PollOutcome(rest.rounds + 1, rest.reason)
  }

  /** `n` sampling rounds over the sources. */
  function Rounds(sources: seq<Source>, n: nat): seq<Event> {
    if n == 0 then [] else Rounds(sources, n - 1) + CallAll(sources, SampleHook)
  }

  /**
    The duration `poll` uses: the process-sampling duration, or the
    sampling duration when that is negative. Only a positive duration
    limits the loop.
   */
  function EffectiveDuration(processDuration: real, samplingDuration: real): (r: real)
    ensures processDuration >= 0.0 ==> r == processDuration
    ensures processDuration < 0.0 ==> r == samplingDuration
  {
    if processDuration < 0.0 then samplingDuration else processDuration
  }

  /** The end time: the start plus the duration in whole nanoseconds. */
  function EndTime(start: int, duration: real): (r: int)
    ensures duration > 0.0 ==> r >= start
  {
    if duration > 0.0 then start + (duration * 1_000_000_000.0).Floor else start
  }

  /**
    `sampler::poll`: configure every source, then run the loop. Each round
    raises the "is sampling" flag, samples every source in order and lowers
    the flag; the flag is lowered once more after the loop. Returns the
    events, the number of rounds, why the loop stopped, and the flag.
   */
  method Poll(sources: seq<Source>, hasState: bool, obs: seq<Observation>,
              processDuration: real, samplingDuration: real, start: int, interval: nat)
    returns (events: seq<Event>, rounds: nat, reason: ExitReason, isSampling: bool)
    ensures var d := EffectiveDuration(processDuration, samplingDuration);
            hasState ==> PollOutcome(rounds, reason) == PollFrom(obs, 0, start, d > 0.0, EndTime(start, d), interval)
    ensures !hasState ==> rounds == 0
    ensures events == CallAll(sources, ConfigHook) + Rounds(sources, rounds)
    ensures !isSampling
  {
    var duration := EffectiveDuration(processDuration, samplingDuration);
    var hasDuration := duration > 0.0;
    var end := EndTime(start, duration);
    events := CallAll(sources, ConfigHook);
    rounds := 0;
    isSampling := false;
    if !hasState {
      reason := StateFinalized;
      return;
    }
    events, rounds, reason := PollLoop(sources, obs, start, hasDuration, end, interval, events);
    isSampling := false;
  }

  /**
    The loop of `sampler::poll` from time `start`, appending one sample
    event per source for every round to the events so far.
   */
  method PollLoop(sources: seq<Source>, obs: seq<Observation>, start: int, hasDuration: bool, end: int,
                  interval: nat, events0: seq<Event>)
    returns (events: seq<Event>, rounds: nat, reason: ExitReason)
    ensures PollOutcome(rounds, reason) == PollFrom(obs, 0, start, hasDuration, end, interval)
    ensures events == events0 + Rounds(sources, rounds)
  {
    events := events0;
    rounds := 0;
    var isSampling := false;
    var now := start;
    var i := 0;
    reason := ObservationsExhausted;
    var done := false;
    while i < |obs| && !done
      invariant 0 <= i <= |obs|
      invariant events == events0 + Rounds(sources, rounds)
      invariant !done ==> reason == ObservationsExhausted
      invariant done ==> PollOutcome(rounds, reason) == PollFrom(obs, 0, start, hasDuration, end, interval)
      invariant !done ==> var rest := PollFrom(obs, i, now, hasDuration, end, interval);
                          PollFrom(obs, 0, start, hasDuration, end, interval) == PollOutcome(rounds + rest.rounds, rest.reason)
      decreases |obs| - i, !done
    {
      match TickOf(obs[i], now, hasDuration, end)
      case Leave(why) =>
        assert PollFrom(obs, i, now, hasDuration, end, interval) == PollOutcome(0, why);
        reason := why;
        done := true;
      case SkipRound =>
        assert PollFrom(obs, i, now, hasDuration, end, interval) == PollFrom(obs, i + 1, now, hasDuration, end, interval);
        i := i + 1;
      case SampleRound(thenLeave) =>
        isSampling := true;
        assert Rounds(sources, rounds + 1) == Rounds(sources, rounds) + CallAll(sources, SampleHook);
        events := events + CallAll(sources, SampleHook);
        rounds := rounds + 1;
        isSampling := false;
        if thenLeave {
          assert PollFrom(obs, i, now, hasDuration, end, interval) == PollOutcome(1, DurationElapsed);
          reason := DurationElapsed;
          done := true;
        } else {
          ghost var rest := PollFrom(obs, i + 1, obs[i].clock + interval, hasDuration, end, interval);
          assert PollFrom(obs, i, now, hasDuration, end, interval) == PollOutcome(rest.rounds + 1, rest.reason);
          now := obs[i].clock + interval;
          i := i + 1;
        }
    }
  }

  /** Rounds are only counted for iterations that saw both states `Active`. */
  function BothActive(obs: seq<Observation>, i: nat): (n: nat)
    requires i <= |obs|
    decreases |obs| - i
  {
    if i == |obs| then 0
    else (if obs[i].bodyLocal == Lifecycle.Active && obs[i].bodyGlobalActiveCheck == Lifecycle.Active then 1 else 0)
         + BothActive(obs, i + 1)
  }

  /**
    The sampler never samples more often than it sees both the sampler
    and the library active.
   */
  lemma {:induction false} RoundsNeedActiveStates(obs: seq<Observation>, i: nat, now: int, hasDuration: bool, end: int, interval: nat)
    requires i <= |obs|
    ensures PollFrom(obs, i, now, hasDuration, end, interval).rounds <= BothActive(obs, i)
    decreases |obs| - i
  {
    if i < |obs| {
      RoundsNeedActiveStates(obs, i + 1, now, hasDuration, end, interval);
      RoundsNeedActiveStates(obs, i + 1, obs[i].clock + interval, hasDuration, end, interval);
    }
  }

  /** Once the sampler's own state reads `Finalized` at the loop test, no further round happens. */
  lemma FinalizedStopsPolling(obs: seq<Observation>, i: nat, now: int, hasDuration: bool, end: int, interval: nat)
    requires i < |obs| && !Below(obs[i].guardLocal, Lifecycle.Finalized)
    ensures PollFrom(obs, i, now, hasDuration, end, interval) == PollOutcome(0, StateFinalized)
  {
  }

  /**
    With a duration, a round that starts at or after the end time is the
    last one.
   */
  lemma ElapsedRoundIsLast(obs: seq<Observation>, i: nat, now: int, end: int, interval: nat)
    requires i < |obs| && now >= end
    requires TickOf(obs[i], now, true, end).SampleRound?
    ensures PollFrom(obs, i, now, true, end, interval) == PollOutcome(1, DurationElapsed)
  {
  }

  // ---------------------------------------------------------------------------
  // setup / shutdown / post_process
  // ---------------------------------------------------------------------------

  /** How `shutdown` got rid of the sampler thread. */
  datatype Stop = NoThread | Joined | Cancelled

  /**
    The sampler's globals: the registered sources, the sampler state the
    polling thread reads, whether a thread and its "polling finished"
    promise exist, and `is_initialized`.
   */
  datatype Sampler = Sampler(
    sources: seq<Source>,
    state: Lifecycle.State,
    hasThread: bool,
    hasPromise: bool,
    initialized: bool)

  const InitialSampler: Sampler := Sampler([], Lifecycle.PreInit, false, false, false)

  datatype Step = Step(sampler: Sampler, events: seq<Event>, stop: Stop)

  /**
    `sampler::shutdown`: the state becomes `Finalized`, every source is shut
    down, a running thread is joined when its promise exists and cancelled
    otherwise, and then neither thread nor promise remains.
   */
  function Shutdown(s: Sampler): (r: Step)
    ensures r.sampler == s.(state := Lifecycle.Finalized, hasThread := false,
                            hasPromise := if s.hasThread then false else s.hasPromise, initialized := false)
    ensures r.events == CallAll(s.sources, ShutdownHook)
    ensures r.stop == NoThread <==> !s.hasThread
    ensures r.stop == Joined <==> s.hasThread && s.hasPromise
  {
    var stop := if !s.hasThread then NoThread else if s.hasPromise then Joined else Cancelled;
    Step(Sampler(s.sources, Lifecycle.Finalized, false, if s.hasThread then false else s.hasPromise, false),
         CallAll(s.sources, ShutdownHook), stop)
  }

  /**
    `sampler::setup`: nothing when process sampling is off. Otherwise it
    shuts down first, appends ROCm SMI (when enabled) and CPU frequency to
    the sources already registered, sets every source up, creates the
    promise, starts the thread and leaves the state `Active`.
   */
  function Setup(s: Sampler, useProcessSampling: bool, useRocmSmi: bool): (r: Step)
    ensures !useProcessSampling ==> r == Step(s, [], NoThread)
    ensures useProcessSampling ==>
              r.sampler.sources == s.sources + (if useRocmSmi then [RocmSmi] else []) + [CpuFreq] &&
              r.sampler.state == Lifecycle.Active && r.sampler.hasThread && r.sampler.hasPromise &&
              r.events == Shutdown(s).events + CallAll(r.sampler.sources, SetupHook) &&
              r.stop == Shutdown(s).stop
  {
    if !useProcessSampling then Step(s, [], NoThread)
    else
      var down := Shutdown(s);
      var sources := down.sampler.sources + (if useRocmSmi then [RocmSmi] else []) + [CpuFreq];
      Step(Sampler(sources, Lifecycle.Active, true, true, down.sampler.initialized),
           down.events + CallAll(sources, SetupHook), down.stop)
  }

  /** `sampler::post_process`: post-process every source, then forget them all. */
  function PostProcess(s: Sampler): (r: Step)
    ensures r.sampler == s.(sources := [])
    ensures r.events == CallAll(s.sources, PostProcessHook)
  {
    Step(s.(sources := []), CallAll(s.sources, PostProcessHook), NoThread)
  }

  /** A second shutdown finds no thread and changes nothing further. */
  lemma ShutdownIdempotent(s: Sampler)
    ensures var once := Shutdown(s);
            var twice := Shutdown(once.sampler);
            twice.sampler == once.sampler && twice.stop == NoThread
  {
  }

  /**
    A thread started by `setup` always has its promise, so the next
    shutdown joins it instead of cancelling it.
   */
  lemma SetupThreadIsJoined(s: Sampler, useRocmSmi: bool)
    ensures Shutdown(Setup(s, true, useRocmSmi).sampler).stop == Joined
  {
  }

  /**
    The full cycle from a fresh sampler: setup registers one or two
    sources, shutdown stops the joined thread, post-processing leaves no
    source and no thread behind.
   */
  lemma FullCycle(useRocmSmi: bool)
    ensures var up := Setup(InitialSampler, true, useRocmSmi);
            var down := Shutdown(up.sampler);
            var done := PostProcess(down.sampler);
            up.sampler.sources == (if useRocmSmi then [RocmSmi, CpuFreq] else [CpuFreq]) &&
            down.stop == Joined &&
            done.sampler == Sampler([], Lifecycle.Finalized, false, false, false)
  {
  }

  /**
    `setup` does not clear the sources: a second setup without a
    post-processing in between registers every source again, so each is
    sampled twice per round.
   */
  lemma SetupTwiceRegistersTwice(s: Sampler, useRocmSmi: bool)
    ensures var once := Setup(s, true, useRocmSmi).sampler;
            var twice := Setup(once, true, useRocmSmi).sampler;
            |twice.sources| == |s.sources| + 2 * (if useRocmSmi then 2 else 1) &&
            twice.sources[|twice.sources| - 1] == CpuFreq
  {
  }

  /**
    `sampler::set_state`: an unconditional store of the state the polling
    thread reads; unlike the process-wide state it has no ordering check.
   */
  function SetSamplerState(s: Sampler, st: Lifecycle.State): (r: Sampler)
    ensures r.state == st
    ensures r.(state := s.state) == s
  {
    s.(state := st)
  }

  /**
    The sampler state can move backwards: after a shutdown has finalized
    it, a store of `PreInit` (as `setup` does before starting the thread)
    takes effect, where the process-wide `set_state` throws in a CI run.
   */
  lemma SamplerStateMovesBackwards(s: Sampler)
    ensures var down := Shutdown(s).sampler;
            var again := SetSamplerState(down, Lifecycle.PreInit);
            down.state == Lifecycle.Finalized && again.state == Lifecycle.PreInit &&
            Lifecycle.SetState(down.state, Lifecycle.PreInit, true).Thrown?
  {
  }
}
