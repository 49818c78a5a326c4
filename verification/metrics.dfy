/**
  Per-sample thread metrics of the sampler
  (rocprof-sys/library/components/backtrace_metrics.{hpp,cpp}): which
  categories a sample holds, how a sample is taken, how two samples are
  subtracted, how the sampler is switched on and off for a thread, and
  which perfetto counter tracks are registered and then written to.

  The operating-system readings (thread CPU clock, `getrusage`, the PAPI
  counter array) are inputs. The 64-bit fields are unbounded integers:
  overflow of the source's `int64_t` arithmetic is not modelled.
 */
module BacktraceMetrics {

  import Common

  /** The entries of `categories_t`, in order; their position is their bit. */
  datatype Category =
    | CpuTime | PeakMemory | ContextSwitch | PageFault
    | HardwareCounterCategory | HardwareCounters

  const NumCategories: nat := 6

  function Bit(c: Category): (r: nat)
    ensures r < NumCategories
  {
    match c
      case CpuTime => 0
      case PeakMemory => 1
      case ContextSwitch => 2
      case PageFault => 3
      case HardwareCounterCategory => 4
      case HardwareCounters => 5
  }

  /** The category at bit `i`: the inverse of `Bit`. */
  function CategoryAt(i: nat): (r: Category)
    requires i < NumCategories
    ensures Bit(r) == i
  {
    [CpuTime, PeakMemory, ContextSwitch, PageFault, HardwareCounterCategory, HardwareCounters][i]
  }

  lemma BitRoundTrip(c: Category)
    ensures CategoryAt(Bit(c)) == c
  {
  }

  /** `valid_array_t`: one bit per category. */
  type Valid = v: seq<bool> | |v| == NumCategories witness [false, false, false, false, false, false]

  const NoneValid: Valid := [false, false, false, false, false, false]

  /** Hardware counters are recorded and subtracted only when both of their bits are set. */
  predicate HardwareValid(v: Valid) {
    v[Bit(HardwareCounterCategory)] && v[Bit(HardwareCounters)]
  }

  /** One sample: the valid bits and the five measurements. */
  datatype Metrics = Metrics(
    valid: Valid,
    cpu: int,
    peakMemory: int,
    contextSwitches: int,
    pageFaults: int,
    hw: seq<int>)

  /** A default-constructed sample; `hwSize` is the fixed size of the counter array. */
  function Default(hwSize: nat): Metrics {
    Metrics(NoneValid, 0, 0, 0, 0, seq(hwSize, _ => 0))
  }

  /** `explicit operator bool`: some category is valid. */
  function Truthy(m: Metrics): (r: bool)
    ensures r <==> exists i :: 0 <= i < NumCategories && m.valid[i]
  {
    m.valid[0] || m.valid[1] || m.valid[2] || m.valid[3] || m.valid[4] || m.valid[5]
  }

  lemma DefaultIsFalsy(hwSize: nat)
    ensures !Truthy(Default(hwSize))
  {
  }

  /** What the operating system reports for the calling thread at sampling time. */
  datatype Readings = Readings(
    cpuClock: int,
    peakRss: int,
    priorityContextSwitches: int,
    voluntaryContextSwitches: int,
    majorPageFaults: int,
    minorPageFaults: int,
    hwRecord: seq<int>)

  /**
    `backtrace_metrics::sample`. `samplingOn` is whether both process
    sampling and backtrace metrics are enabled; `enabled` is each category's
    runtime switch; `hwAvailable` is whether the build has PAPI counters.
    When sampling is off every bit is cleared; when no category is enabled
    nothing is read; otherwise all four usage values are read, and the
    counters only when both hardware bits are set. Values not read keep
    their previous contents.
   */
  function Sample(prev: Metrics, samplingOn: bool, enabled: Valid, rd: Readings, hwAvailable: bool): (r: Metrics)
    ensures !samplingOn ==> r == prev.(valid := NoneValid)
    ensures samplingOn ==> r.valid == enabled
    ensures samplingOn && !Truthy(r) ==> r == prev.(valid := enabled)
    ensures samplingOn && Truthy(r) ==>
              r.cpu == rd.cpuClock && r.peakMemory == rd.peakRss &&
              r.contextSwitches == rd.priorityContextSwitches + rd.voluntaryContextSwitches &&
              r.pageFaults == rd.majorPageFaults + rd.minorPageFaults
    ensures r.hw == (if samplingOn && hwAvailable && HardwareValid(enabled) then rd.hwRecord else prev.hw)
  {
    if !samplingOn then prev.(valid := NoneValid)
    else if !Truthy(prev.(valid := enabled)) then prev.(valid := enabled)
    else
      Metrics(enabled, rd.cpuClock, rd.peakRss,
              rd.priorityContextSwitches + rd.voluntaryContextSwitches,
              rd.majorPageFaults + rd.minorPageFaults,
              if hwAvailable && HardwareValid(enabled) then rd.hwRecord else prev.hw)
  }

  /**
    `operator-=` (and the binary `operator-`, which works on a copy of the
    left operand): each measurement is subtracted only when the LEFT
    operand's bit is set; the counters only when both of its hardware bits
    are. The bits themselves are those of the left operand.
   */
  function Subtract(a: Metrics, b: Metrics): (r: Metrics)
    requires |a.hw| == |b.hw|
    ensures r.valid == a.valid && |r.hw| == |a.hw|
    ensures r.cpu == if a.valid[Bit(CpuTime)] then a.cpu - b.cpu else a.cpu
    ensures r.peakMemory == if a.valid[Bit(PeakMemory)] then a.peakMemory - b.peakMemory else a.peakMemory
    ensures r.contextSwitches ==
              if a.valid[Bit(ContextSwitch)] then a.contextSwitches - b.contextSwitches else a.contextSwitches
    ensures r.pageFaults == if a.valid[Bit(PageFault)] then a.pageFaults - b.pageFaults else a.pageFaults
    ensures forall i :: 0 <= i < |a.hw| ==> r.hw[i] == if HardwareValid(a.valid) then a.hw[i] - b.hw[i] else a.hw[i]
  {
    Metrics(
      a.valid,
      if a.valid[0] then a.cpu - b.cpu else a.cpu,
      if a.valid[1] then a.peakMemory - b.peakMemory else a.peakMemory,
      if a.valid[2] then a.contextSwitches - b.contextSwitches else a.contextSwitches,
      if a.valid[3] then a.pageFaults - b.pageFaults else a.pageFaults,
      if HardwareValid(a.valid) then seq(|a.hw|, i requires 0 <= i < |a.hw| => a.hw[i] - b.hw[i]) else a.hw)
  }

  /** Adding the right operand back to a subtracted field gives the left operand's value. */
  lemma SubtractAddBack(a: Metrics, b: Metrics)
    requires |a.hw| == |b.hw|
    ensures var d := Subtract(a, b);
            (a.valid[Bit(CpuTime)] ==> d.cpu + b.cpu == a.cpu) &&
            (a.valid[Bit(PeakMemory)] ==> d.peakMemory + b.peakMemory == a.peakMemory) &&
            (a.valid[Bit(ContextSwitch)] ==> d.contextSwitches + b.contextSwitches == a.contextSwitches) &&
            (a.valid[Bit(PageFault)] ==> d.pageFaults + b.pageFaults == a.pageFaults) &&
            (HardwareValid(a.valid) ==> forall i :: 0 <= i < |a.hw| ==> d.hw[i] + b.hw[i] == a.hw[i])
  {
  }

  /** Subtracting a default sample changes nothing; subtracting a sample from itself zeroes its valid fields. */
  lemma SubtractIdentities(a: Metrics)
    ensures Subtract(a, Default(|a.hw|)) == a
    ensures var z := Subtract(a, a);
            (a.valid[Bit(CpuTime)] ==> z.cpu == 0) &&
            (a.valid[Bit(PeakMemory)] ==> z.peakMemory == 0) &&
            (a.valid[Bit(ContextSwitch)] ==> z.contextSwitches == 0) &&
            (a.valid[Bit(PageFault)] ==> z.pageFaults == 0) &&
            (HardwareValid(a.valid) ==> forall i :: 0 <= i < |a.hw| ==> z.hw[i] == 0)
  {
    var r := Subtract(a, Default(|a.hw|));
    assert r.hw == a.hw;
  }

  /**
    Two samples taken with the same switches, subtracted, give the change
    in each reading between them: the per-interval values the sampler
    reports.
   */
  lemma SampleDifference(p1: Metrics, p2: Metrics, enabled: Valid, rd1: Readings, rd2: Readings, hwAvailable: bool)
    requires Truthy(p1.(valid := enabled))
    requires hwAvailable && HardwareValid(enabled) ==> |rd2.hwRecord| == |rd1.hwRecord|
    requires !(hwAvailable && HardwareValid(enabled)) ==> |p2.hw| == |p1.hw|
    ensures var s1 := Sample(p1, true, enabled, rd1, hwAvailable);
            var s2 := Sample(p2, true, enabled, rd2, hwAvailable);
            var d := Subtract(s2, s1);
            d.valid == enabled &&
            (enabled[Bit(CpuTime)] ==> d.cpu == rd2.cpuClock - rd1.cpuClock) &&
            (enabled[Bit(PeakMemory)] ==> d.peakMemory == rd2.peakRss - rd1.peakRss) &&
            (enabled[Bit(ContextSwitch)] ==>
               d.contextSwitches == rd2.priorityContextSwitches + rd2.voluntaryContextSwitches
                                    - rd1.priorityContextSwitches - rd1.voluntaryContextSwitches) &&
            (enabled[Bit(PageFault)] ==>
               d.pageFaults == rd2.majorPageFaults + rd2.minorPageFaults - rd1.majorPageFaults - rd1.minorPageFaults) &&
            (hwAvailable && HardwareValid(enabled) ==>
               forall i :: 0 <= i < |rd2.hwRecord| ==> d.hw[i] == rd2.hwRecord[i] - rd1.hwRecord[i])
  {
  }

  // ---------------------------------------------------------------------------
  // Switching the sampler on and off for a thread
  // ---------------------------------------------------------------------------

  /**
    What `configure` did: the per-thread "sampler running" flag afterwards
    (`None` when the thread has none), and whether the PAPI counters were
    started or stopped.
   */
  datatype ConfigureEffect = ConfigureEffect(running: Common.Option<bool>, startedCounters: bool, stoppedCounters: bool)

  /**
    `backtrace_metrics::configure(setup, tid)`. Setting up a thread that is
    not running starts its counters (when PAPI is available and the thread
    has a counter vector) but does not itself set the flag; tearing down a
    running thread clears the flag and stops the counters when called on
    that thread. Any other combination only makes sure storage exists.
   */
  function Configure(setup: bool, running: Common.Option<bool>, onThatThread: bool,
                     hwAvailable: bool, hasCounters: bool): (r: ConfigureEffect)
    ensures r.running.Some? <==> running.Some?
    ensures r.running != running ==> !setup && running == Common.Some(true) && r.running == Common.Some(false)
    ensures r.startedCounters <==> setup && running != Common.Some(true) && hwAvailable && hasCounters
    ensures r.stoppedCounters <==> !setup && running == Common.Some(true) && onThatThread && hwAvailable && hasCounters
    ensures !(r.startedCounters && r.stoppedCounters)
  {
    var isRunning := running.Some? && running.value;
    if setup && !isRunning then
      ConfigureEffect(running, hwAvailable && hasCounters, false)
    else if !setup && isRunning then
      ConfigureEffect(Common.Some(false), false, onThatThread && hwAvailable && hasCounters)
    else
      ConfigureEffect(running, false, false)
  }

  /** A second tear-down finds the sampler stopped and does nothing. */
  lemma TeardownIsIdempotent(running: Common.Option<bool>, onThatThread: bool, hwAvailable: bool, hasCounters: bool)
    ensures var first := Configure(false, running, onThatThread, hwAvailable, hasCounters);
            var second := Configure(false, first.running, onThatThread, hwAvailable, hasCounters);
            second == ConfigureEffect(first.running, false, false)
  {
  }

  // ---------------------------------------------------------------------------
  // Counter tracks
  // ---------------------------------------------------------------------------

  /** The four resource-usage categories, which share one track list per thread. */
  const UsageCount: nat := 4

  /** The per-thread counter tracks a value is written to. */
  datatype Track = UsageTrack(index: nat) | HardwareTrack(index: nat)

  /** One `TRACE_COUNTER` write. */
  datatype Emit = Emit(track: Track, category: Category, value: int)

  /** The usage categories whose bits are set, from bit `c` on, in bit order. */
  function UsageFrom(v: Valid, c: nat): (r: seq<Category>)
    requires c <= UsageCount
    ensures |r| <= UsageCount - c
    ensures forall k :: 0 <= k < |r| ==> Bit(r[k]) < UsageCount && v[Bit(r[k])]
    decreases UsageCount - c
  {
    if c == UsageCount then []
    else if v[c] then [CategoryAt(c)] + UsageFrom(v, c + 1)
    else UsageFrom(v, c + 1)
  }

  /** The bits of `cats` are at least `c` and strictly increase along the list. */
  predicate AscendingFrom(cats: seq<Category>, c: nat) {
    (forall k :: 0 <= k < |cats| ==> c <= Bit(cats[k])) &&
    (forall j, k :: 0 <= j < k < |cats| ==> Bit(cats[j]) < Bit(cats[k]))
  }

  /** Putting bit `c` in front of a list ascending from `c + 1` gives a list ascending from `c`. */
  lemma ConsAscending(x: Category, rest: seq<Category>, c: nat)
    requires Bit(x) == c && AscendingFrom(rest, c + 1)
    ensures AscendingFrom([x] + rest, c)
  {
    var r := [x] + rest;
    forall j, k | 0 <= j < k < |r|
      ensures Bit(r[j]) < Bit(r[k])
    {
      assert r[k] == rest[k - 1];
      if j > 0 {
        assert r[j] == rest[j - 1];
      }
    }
  }

  /** The bits `UsageFrom(v, c)` lists are at least `c` and strictly increase along the list. */
  lemma {:induction false} UsageFromOrdered(v: Valid, c: nat)
    requires c <= UsageCount
    ensures AscendingFrom(UsageFrom(v, c), c)
    decreases UsageCount - c
  {
    if c < UsageCount {
      UsageFromOrdered(v, c + 1);
      if v[c] {
        ConsAscending(CategoryAt(c), UsageFrom(v, c + 1), c);
      }
    }
  }

  /** Every set usage bit from `c` on is listed by `UsageFrom(v, c)`. */
  lemma {:induction false} UsageFromComplete(v: Valid, c: nat, b: nat)
    requires c <= b < UsageCount && v[b]
    ensures exists k :: 0 <= k < |UsageFrom(v, c)| && Bit(UsageFrom(v, c)[k]) == b
    decreases b - c
  {
    if b == c {
      assert Bit(UsageFrom(v, c)[0]) == b;
    } else {
      var rest := UsageFrom(v, c + 1);
      UsageFromComplete(v, c + 1, b);
      var j :| 0 <= j < |rest| && Bit(rest[j]) == b;
      if v[c] {
        assert UsageFrom(v, c) == [CategoryAt(c)] + rest;
        assert Bit(UsageFrom(v, c)[j + 1]) == b;
      } else {
        assert UsageFrom(v, c) == rest;
        assert Bit(UsageFrom(v, c)[j]) == b;
      }
    }
  }

  /**
    `UsageFrom(v, c)` lists exactly the set usage bits from `c` on: each
    listed bit is set and at least `c`, each set bit is listed, and the
    bits strictly increase along the list.
   */
  lemma UsageFromIsSetBits(v: Valid, c: nat)
    requires c <= UsageCount
    ensures var r := UsageFrom(v, c);
            (forall k :: 0 <= k < |r| ==> c <= Bit(r[k]) < UsageCount && v[Bit(r[k])]) &&
            (forall b :: c <= b < UsageCount && v[b] ==> exists k :: 0 <= k < |r| && Bit(r[k]) == b) &&
            (forall j, k :: 0 <= j < k < |r| ==> Bit(r[j]) < Bit(r[k]))
  {
    UsageFromOrdered(v, c);
    assert AscendingFrom(UsageFrom(v, c), c);
    forall b | c <= b < UsageCount && v[b]
      ensures exists k :: 0 <= k < |UsageFrom(v, c)| && Bit(UsageFrom(v, c)[k]) == b
    {
      UsageFromComplete(v, c, b);
    }
  }

  /**
    The usage tracks `init_perfetto` registers for a thread that has none
    yet, in registration order (a thread that has them gets no new ones).
   */
  function RegisteredUsageTracks(v: Valid, alreadyRegistered: bool): seq<Category> {
    if alreadyRegistered then [] else UsageFrom(v, 0)
  }

  /**
    The number of hardware tracks `init_perfetto` registers: one per
    counter label, when both hardware bits are set and the thread has none.
   */
  function RegisteredHardwareTracks(v: Valid, alreadyRegistered: bool, labels: nat): (r: nat)
    ensures r > 0 ==> HardwareValid(v) && !alreadyRegistered
    ensures !alreadyRegistered && HardwareValid(v) ==> r == labels
    ensures alreadyRegistered || !HardwareValid(v) ==> r == 0
  {
    if !alreadyRegistered && HardwareValid(v) then labels else 0
  }

  /**
    The usage writes: each set usage category, in bit order, writes its
    value to the next usage track, counting from 0.
   */
  function UsageWrites(v: Valid, values: seq<int>, c: nat, next: nat): seq<Emit>
    requires |values| == UsageCount && c <= UsageCount
    decreases UsageCount - c
  {
    if c == UsageCount then []
    else if v[c] then [Emit(UsageTrack(next), CategoryAt(c), values[c])] + UsageWrites(v, values, c + 1, next + 1)
    else UsageWrites(v, values, c + 1, next)
  }

  /**
    The hardware writes: when both hardware bits are set, counter `i` is
    written to hardware track `i` for every `i` below both the number of
    tracks and the number of values.
   */
  function HardwareWrites(v: Valid, tracks: nat, values: seq<int>): (r: seq<Emit>)
    ensures |r| == if HardwareValid(v) then (if tracks < |values| then tracks else |values|) else 0
    ensures forall i :: 0 <= i < |r| ==> r[i] == Emit(HardwareTrack(i), HardwareCounterCategory, values[i])
  {
    if !HardwareValid(v) then []
    else
      var n := if tracks < |values| then tracks else |values|;
      seq(n, i requires 0 <= i < n => Emit(HardwareTrack(i), HardwareCounterCategory, values[i]))
  }

  /** `units::sec` and `units::megabyte` of the timing library. */
  const NanosecondsPerSecond: int := 1_000_000_000
  const BytesPerMegabyte: int := 1_000_000

  /**
    C++ integer division, which truncates toward zero: `r * b` lies between
    0 and `a`, and the remainder has the sign of `a` and is smaller than `b`
    in magnitude.
   */
  function TruncDiv(a: int, b: int): (r: int)
    requires b > 0
    ensures a >= 0 ==> 0 <= r * b <= a && 0 <= a - r * b < b
    ensures a < 0 ==> a <= r * b <= 0 && -b < a - r * b <= 0
  {
    if a >= 0 then
      DivisionBounds(a, b);
      a / b
    else
      DivisionBounds(-a, b);
      -((-a) / b)
  }

  /** Euclidean division of a natural number: the quotient times `b` is within `b` below `n`. */
  lemma DivisionBounds(n: nat, b: int)
    requires b > 0
    ensures 0 <= (n / b) * b <= n && n - (n / b) * b < b
    ensures (-(n / b)) * b == -((n / b) * b)
  {
    var q := n / b;
    assert n == q * b + n % b;
    assert q >= 0;
  }

  /**
    `post_process_perfetto`: the writes of one sample, given how many
    hardware tracks the thread has. CPU time is written in whole seconds and
    peak memory in whole megabytes.
   */
  function PostProcessWrites(m: Metrics, hardwareTracks: nat): seq<Emit> {
    UsageWrites(m.valid,
                [TruncDiv(m.cpu, NanosecondsPerSecond), TruncDiv(m.peakMemory, BytesPerMegabyte),
                 m.contextSwitches, m.pageFaults], 0, 0)
    + HardwareWrites(m.valid, hardwareTracks, m.hw)
  }

  /**
    `fini_perfetto`: nothing when the thread has no thread information;
    otherwise a closing zero on every track of the valid categories, and on
    hardware tracks only up to the number of counter labels.
   */
  function FiniWrites(v: Valid, hasThreadInfo: bool, hardwareTracks: nat, labels: nat): seq<Emit> {
    if !hasThreadInfo then []
    else UsageWrites(v, [0, 0, 0, 0], 0, 0) + HardwareWrites(v, hardwareTracks, seq(labels, _ => 0))
  }

  /** Writes of `cats`, in order, to consecutive usage tracks from `next`. */
  function Lined(cats: seq<Category>, values: seq<int>, next: nat): seq<Emit>
    requires |values| == UsageCount
    requires forall k :: 0 <= k < |cats| ==> Bit(cats[k]) < UsageCount
    decreases |cats|
  {
    if |cats| == 0 then []
    else [Emit(UsageTrack(next), cats[0], values[Bit(cats[0])])] + Lined(cats[1..], values, next + 1)
  }

  /** The usage writes are the set categories written to consecutive tracks. */
  lemma {:induction false} UsageWritesAreLined(v: Valid, values: seq<int>, c: nat, next: nat)
    requires |values| == UsageCount && c <= UsageCount
    ensures UsageWrites(v, values, c, next) == Lined(UsageFrom(v, c), values, next)
    decreases UsageCount - c
  {
    if c < UsageCount {
      if v[c] {
        UsageWritesAreLined(v, values, c + 1, next + 1);
        var u := UsageFrom(v, c + 1);
        assert ([CategoryAt(c)] + u)[1..] == u;
      } else {
        UsageWritesAreLined(v, values, c + 1, next);
      }
    }
  }

  /** The `k`-th lined write goes to track `next + k` with the `k`-th category. */
  lemma {:induction false} LinedAt(cats: seq<Category>, values: seq<int>, next: nat)
    requires |values| == UsageCount
    requires forall k :: 0 <= k < |cats| ==> Bit(cats[k]) < UsageCount
    ensures |Lined(cats, values, next)| == |cats|
    ensures forall k :: 0 <= k < |cats| ==>
              Lined(cats, values, next)[k] == Emit(UsageTrack(next + k), cats[k], values[Bit(cats[k])])
    decreases |cats|
  {
    if |cats| > 0 {
      var rest := cats[1..];
      LinedAt(rest, values, next + 1);
      var l := Lined(cats, values, next);
      forall k | 0 <= k < |cats|
        ensures l[k] == Emit(UsageTrack(next + k), cats[k], values[Bit(cats[k])])
      {
        if k > 0 {
          assert l[k] == Lined(rest, values, next + 1)[k - 1];
          assert cats[k] == rest[k - 1];
        }
      }
    }
  }

  /**
    The `k`-th usage write goes to usage track `next + k`, and the category
    written there is the `k`-th set category: the same as the one
    registered on that track.
   */
  lemma UsageWritesLineUp(v: Valid, values: seq<int>, c: nat, next: nat)
    requires |values| == UsageCount && c <= UsageCount
    ensures |UsageWrites(v, values, c, next)| == |UsageFrom(v, c)|
    ensures forall k :: 0 <= k < |UsageFrom(v, c)| ==>
              UsageWrites(v, values, c, next)[k] ==
              Emit(UsageTrack(next + k), UsageFrom(v, c)[k], values[Bit(UsageFrom(v, c)[k])])
  {
    UsageWritesAreLined(v, values, c, next);
    LinedAt(UsageFrom(v, c), values, next);
  }

  /**
    A sample of a thread whose tracks were registered with the same bits
    writes to exactly the registered tracks: once to each registered usage
    track, in order, each with the category registered there; then once to
    each registered hardware track, in order, as far as the sample has
    counter values.
   */
  lemma PostProcessMatchesRegistration(m: Metrics, labels: nat)
    ensures var reg := RegisteredUsageTracks(m.valid, false);
            var tracks := RegisteredHardwareTracks(m.valid, false, labels);
            var w := PostProcessWrites(m, tracks);
            |w| == |reg| + (if tracks < |m.hw| then tracks else |m.hw|) &&
            (forall k :: 0 <= k < |reg| ==> w[k].track == UsageTrack(k) && w[k].category == reg[k]) &&
            (forall k :: |reg| <= k < |w| ==> w[k].track == HardwareTrack(k - |reg|) && k - |reg| < tracks)
  {
    var values := [TruncDiv(m.cpu, NanosecondsPerSecond), TruncDiv(m.peakMemory, BytesPerMegabyte),
                   m.contextSwitches, m.pageFaults];
    UsageWritesLineUp(m.valid, values, 0, 0);
  }

  /**
    The hardware writes of a sample stay inside the registered hardware
    tracks, and happen only when both hardware bits are set.
   */
  lemma HardwareWritesWithinTracks(m: Metrics, labels: nat)
    ensures var tracks := RegisteredHardwareTracks(m.valid, false, labels);
            var h := HardwareWrites(m.valid, tracks, m.hw);
            (|h| > 0 ==> HardwareValid(m.valid)) &&
            forall i :: 0 <= i < |h| ==> h[i].track.index < tracks && h[i].value == m.hw[i]
  {
  }

  /**
    Without thread information nothing is closed. Otherwise every
    registered track gets exactly one closing zero, in registration order:
    first the usage tracks, with their registered categories, then the
    hardware tracks.
   */
  lemma FiniMatchesRegistration(v: Valid, hasThreadInfo: bool, labels: nat)
    ensures !hasThreadInfo ==> FiniWrites(v, hasThreadInfo, RegisteredHardwareTracks(v, false, labels), labels) == []
    ensures var reg := RegisteredUsageTracks(v, false);
            var tracks := RegisteredHardwareTracks(v, false, labels);
            var w := FiniWrites(v, hasThreadInfo, tracks, labels);
            hasThreadInfo ==>
              |w| == |reg| + tracks &&
              (forall k :: 0 <= k < |reg| ==> w[k] == Emit(UsageTrack(k), reg[k], 0)) &&
              (forall k :: |reg| <= k < |w| ==> w[k] == Emit(HardwareTrack(k - |reg|), HardwareCounterCategory, 0))
  {
    if hasThreadInfo {
      UsageWritesLineUp(v, [0, 0, 0, 0], 0, 0);
      var reg := RegisteredUsageTracks(v, false);
      var tracks := RegisteredHardwareTracks(v, false, labels);
      var u := UsageWrites(v, [0, 0, 0, 0], 0, 0);
      var h := HardwareWrites(v, tracks, seq(labels, _ => 0));
      assert |h| == tracks;
      var w := u + h;
      assert w == FiniWrites(v, hasThreadInfo, tracks, labels);
      var zeros: seq<int> := [0, 0, 0, 0];
      forall k | 0 <= k < |reg|
        ensures w[k] == Emit(UsageTrack(k), reg[k], 0)
      {
        assert w[k] == u[k];
        assert zeros[Bit(reg[k])] == 0;
      }
      forall k | |reg| <= k < |w|
        ensures w[k] == Emit(HardwareTrack(k - |reg|), HardwareCounterCategory, 0)
      {
        assert w[k] == h[k - |reg|];
      }
    }
  }
}
