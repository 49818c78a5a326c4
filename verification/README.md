# rocprofiler-systems admission and bookkeeping cores, in Dafny

This project models the small sequential cores of ROCm rocprofiler-systems that
decide whether the profiler acts, and that keep its sampling bookkeeping. It
then proves the laws those cores are meant to follow.

- **Lifecycle** (`lifecycle.dfy`): the process-wide `State` written by
  `set_state`, and the per-thread `ThreadState`. The thread state's history
  stack is driven by `push_thread_state`, `pop_thread_state` and the
  `scoped_thread_state` guard.
- **Admission** (`admission.dfy`): the preload library `librocprof-sys-dl`.
  - The init/finalize guard flags.
  - The per-thread disabled-depth counter of the push/pop entry points.
  - `reset_rocprofsys_preload`'s `LD_PRELOAD` filtering.
  - The `envp` import in `rocprofsys_main`.
  - `rocprofsys_set_instrumented` and `get_default_mode`.
- **UserCallbacks** (`callbacks.dfy`): the user API's ten-slot callback table.
  It covers `invoke`, REPLACE/UNION/INTERSECT configuration and the error
  strings.
- **BacktraceMetrics** (`metrics.dfy`): the `backtrace_metrics` sample.
  - Its validity bits.
  - `sample`, `operator-=` and `configure`.
  - The order in which counter tracks are registered and written.
- **ProcessSampler** (`process_sampler.dfy`): the background sampler.
  - The poll loop, as a method over a sequence of observed states and clock
    readings.
  - `setup`, `shutdown`, `post_process` and the sampler's own `set_state`.
- **CommRank** (`comm_rank.dfy`): MPI rank/size tracking.
  - `comm_rank_data`'s `updated()` and its comparison operators.
  - `update()`'s selection and publication.
  - The max-merge after `MPI_Comm_rank`/`MPI_Comm_size`.
  - The `MPI_Init` process-tree fallback.
- **Regions** (`regions.cpp` entry points, `regions.dfy`): the hidden trace,
  region and categorized-region entry points, and their category dispatch.
- **Dwarf** (`dwarf.dfy`) and **BinaryInfo** (`binary_info.dfy`).
  - `dwarf_entry` ordering, equality and validity.
  - Address-range normalisation, breakpoints and line-table rows, with libdw's
    answers as inputs.
  - `binary_info::sort`, `find_section` and `filename`.
- **Redirect** (`redirect.dfy`): the `redirect` output guard.
  - Its character-stripping `replace`.
  - The decision to redirect at construction.
  - The compare/report/replay decision of the destructor.

Environment variables, the link map, clocks, OS readings and the answers of
libraries are parameters of the model. Atomics, thread-locals and globals are
values passed in and returned.

`set_state` does not itself keep the lifecycle monotone. The comment at
`source/lib/core/state.cpp:83` says the state should only ever increase, but
the guard at lines 84-86 throws only in CI mode; otherwise a decreasing write
is stored. The model follows the code: `Lifecycle.SetState`, with
`Lifecycle.BackwardsWriteAfterFinalize` showing both behaviours.

## Model

| member | source | states |
|---|---|---|
| Lifecycle.StateValue | source/lib/core/state.hpp:34-41 | State enumerators take the values 0..4 in declaration order |
| Lifecycle.StateOrder | source/lib/core/state.hpp:34-41 | PreInit < Init < Active < Finalized < Disabled, and the order tells the enumerators apart |
| Lifecycle.IsTerminal | source/lib/core/state.hpp:44-50 | the test `>= Completed` holds for exactly Completed and Disabled |
| Lifecycle.SetState | source/lib/core/state.cpp:77-91 | throws exactly when CI mode is on and the new state is lower; otherwise returns the old state and stores the new one |
| Lifecycle.CiRunIsMonotone | source/lib/core/state.cpp:83-88 | in CI mode, a run of writes that completes never saw the state decrease |
| Lifecycle.NonCiRunStoresLast | source/lib/core/state.cpp:83-88 | outside CI mode, a run of writes ends at the last value written, whatever the order |
| Lifecycle.BackwardsWriteAfterFinalize | source/lib/core/state.cpp:77-91 | after PreInit→Init→Active→Finalized, a write of Init throws in CI mode and is stored otherwise |
| Lifecycle.SetThreadState | source/lib/core/state.cpp:93-98 | swaps the new thread state in and returns the previous one; the history is untouched |
| Lifecycle.PushThreadState | source/lib/core/state.cpp:100-106 | on a terminal thread, nothing changes and the current state is returned; otherwise the value is set and the previous state is saved on the history and returned |
| Lifecycle.PopThreadState | source/lib/core/state.cpp:108-120 | on a terminal thread or with an empty history, nothing changes; otherwise the newest saved value is restored and removed; the result is the state afterwards |
| Lifecycle.ScopedThreadState | source/lib/core/state.hpp:95-99 | a guard of a non-terminal value leaves no trace; a guard of Completed/Disabled leaves that value set and one more history entry |
| Lifecycle.DisabledMidScopeIsKept | source/lib/core/state.cpp:100-120 | once the thread is disabled inside a scope, the scope's pop is ignored |
| Lifecycle.TerminalIsSticky | source/lib/core/state.cpp:100-120 | no sequence of pushes and pops changes a terminal thread |
| Lifecycle.StackDiscipline | source/lib/core/state.cpp:100-120 | pushes of non-terminal values with pops that never outnumber them grow the stack by pushes minus pops, and leave the bottom untouched |
| Lifecycle.BalancedRunRestores | source/lib/core/state.cpp:100-120 | a balanced run of non-terminal pushes and pops restores the state and the history |
| Lifecycle.NamesAreDistinct | source/lib/core/state.cpp:124-174 | `to_string` gives different enumerators of each enum different names |
| Lifecycle.StateName | source/lib/core/state.cpp:124-174 | the state's name reads back, through `StateOf`, as that state |
| Lifecycle.ThreadStateName | source/lib/core/state.cpp:124-174 | the thread state's name reads back, through `ThreadStateOf`, as that thread state |
| Lifecycle.ModeName | source/lib/core/state.cpp:124-174 | the mode's name reads back, through `ModeOf`, as that mode |
| Lifecycle.CausalModeName | source/lib/core/state.cpp:124-174 | the causal mode's name reads back, through `CausalModeOf`, as that causal mode |
| Admission.DlInit | source/lib/rocprof-sys-dl/dl.cpp:626-655 | ignored when inited and finalized, or inited and active; a forwarded call that ran sets active and inited; a call that did not run changes nothing |
| Admission.DlFinalize | source/lib/rocprof-sys-dl/dl.cpp:657-679 | ignored when inited and finalized, or finalized and not active; a forwarded call that ran clears active and sets finalized |
| Admission.InitFinalizeIsFinal | source/lib/rocprof-sys-dl/dl.cpp:626-679 | one successful init and finalize leave the flags initialised and finalised, and from any such flags every run of later init or finalize calls changes nothing |
| Admission.PopDisabled | source/lib/rocprof-sys-dl/dl.cpp:694-705 | a pop on a disabled thread post-decrements the counter and re-enables the thread exactly when it was 0 |
| Admission.PushDisabled | source/lib/rocprof-sys-dl/dl.cpp:681-692 | a push on a disabled thread increments the counter |
| Admission.Enter | source/lib/rocprof-sys-dl/dl.cpp:681-767 | the corrected entry points, with every pop mirroring the pushes: not active: nothing, returns 0; enabled thread: forwarded; disabled thread: pushes count up and pops count down, returning 0 |
| Admission.PopCategoryRegionAsWritten | source/lib/rocprof-sys-dl/dl.cpp:752-767 | the categorized pop on a disabled thread increments the counter, like a push |
| Admission.CategoryPairAsWrittenStaysDisabled | source/lib/rocprof-sys-dl/dl.cpp:737-767 | as written, a categorized push/pop pair on a disabled thread leaves the counter at 2, so the enclosing pop does not re-enable the thread |
| Admission.MatchedPairKeepsGate | source/lib/rocprof-sys-dl/dl.cpp:681-767 | with pops that mirror pushes, a matched push/pop pair on a disabled thread at any counter except -1 leaves the gate as it was, and the pop at counter 0 re-enables |
| Admission.MatchedPairAtMinusOne | source/lib/rocprof-sys-dl/dl.cpp:681-767 | at counter -1, a matched pair re-enables the thread: the push brings the counter to 0, where the pop re-enables |
| Admission.MinusOneIsReachable | source/lib/rocprof-sys-dl/dl.cpp:694-828 | counter -1 on a disabled thread is reachable: stop the thread trace, pop an unpushed region (re-enabling at -1), stop again |
| Admission.SetThreadTrace | source/lib/rocprof-sys-dl/dl.cpp:818-828 | start/stop thread trace set the thread flag, keep the counter and return 0 |
| Admission.KeptEntries | source/lib/rocprof-sys-dl/dl.cpp:142-146 | the kept tokens are exactly those not containing `librocprof-sys` |
| Admission.ResetPreload | source/lib/rocprof-sys-dl/dl.cpp:133-151 | `LD_PRELOAD` is rewritten exactly when it contains `librocprof-sys-dl.so` |
| Admission.SplitJoin | source/lib/rocprof-sys-dl/dl.cpp:142 | splitting ':'-joined tokens gives the tokens back |
| Admission.AccumulateIsJoin | source/lib/rocprof-sys-dl/dl.cpp:141-146 | the loop's `":" + token` accumulation is the kept tokens joined by ':' behind one leading ':' |
| Admission.ResetPreloadKeepsOthers | source/lib/rocprof-sys-dl/dl.cpp:136-150 | the new value is the other entries joined by ':' in their original order, splits back into them, and has no leading ':' |
| Admission.JoinAvoids | source/lib/rocprof-sys-dl/dl.cpp:142-146 | joining entries that avoid a ':'-free pattern does not create the pattern |
| Admission.ResetPreloadIdempotent | source/lib/rocprof-sys-dl/dl.cpp:136-150 | the rewritten value no longer names the preload library, so a second reset does nothing |
| Admission.SetEnvNoOverwrite | source/lib/rocprof-sys-dl/dl.cpp:1441 | existing variables keep their values; the only variable that can appear is the named one, with the given value, and only for a non-empty name |
| Admission.ImportEntry | source/lib/rocprof-sys-dl/dl.cpp:1430-1441 | an entry is imported only if it starts with ROCPROFSYS or contains librocprof-sys and has '='; it splits at the first '=' into name and value |
| Admission.FirstImportIsEarliest | source/lib/rocprof-sys-dl/dl.cpp:1425-1444 | the value taken for a name is that of the earliest accepted entry naming it |
| Admission.ImportLoop | source/lib/rocprof-sys-dl/dl.cpp:1425-1444 | the loop over the entries, each split at its first '=' and set without overwriting, yields the environment of importing the entries one after another in order |
| Admission.ImportOneStep | source/lib/rocprof-sys-dl/dl.cpp:1434-1442 | importing one more entry keeps the existing variables and sets a new one only when no earlier accepted entry named it |
| Admission.ImportAllMeaning | source/lib/rocprof-sys-dl/dl.cpp:1425-1444 | importing entries in order never overwrites a variable, and a new variable gets the value of the earliest accepted entry naming it |
| Admission.ImportEnvironment | source/lib/rocprof-sys-dl/dl.cpp:1425-1444 | existing variables are never overwritten; a new variable appears exactly when some accepted entry names it, with the earliest such value |
| Admission.MainEntry | source/lib/rocprof-sys-dl/dl.cpp:1416-1444 | a second entry returns -1; a missing real main is an error; without envp the environment is unchanged; existing variables are kept |
| Admission.SetInstrumented | source/lib/rocprof-sys-dl/dl.cpp:890-904 | the mode is stored as given; a log message is produced exactly for values outside [None, Last) |
| Admission.InitHooksFor | source/lib/rocprof-sys-dl/dl.cpp:642-653 | for an init that passes the guard of `Admission.DlInit`, the pre-init hook is called exactly for modes below PythonProfile, the post-init hook exactly when the forwarded init also ran; a hook does work only when called |
| Admission.InstrumentedModeSteersInit | source/lib/rocprof-sys-dl/dl.cpp:1195-1250 | after set_instrumented, and for an init that passes the guard of `Admission.DlInit`, the tooling is initialised exactly for an accepted mode below PythonProfile whose forwarded init ran; a rejected mode below None calls the hooks without effect; PythonProfile and above skip them |
| Admission.DefaultMode | source/lib/rocprof-sys-dl/dl.cpp:1178-1192 | "causal" exactly when the causal flag is set; otherwise "trace" exactly when some linked library is an instrumentation runtime; otherwise "sampling" |
| Admission.FirstRuntime | source/lib/rocprof-sys-dl/dl.cpp:1183-1188 | the link-map scan finds an instrumentation runtime when there is one and none otherwise |
| UserCallbacks.SlotIndexInjective | source/lib/omnitrace-user/user.cpp:131-140 | each of the ten slots is its own field of the table |
| UserCallbacks.Invoke | source/lib/omnitrace-user/user.cpp:47-54 | NO_BINDING exactly for a null slot; otherwise INTERNAL exactly when the callback returns non-zero, SUCCESS when it returns 0 |
| UserCallbacks.UnionTables | source/lib/omnitrace-user/user.cpp:121-141 | each slot takes the input's pointer when non-null and keeps the current one otherwise |
| UserCallbacks.IntersectTables | source/lib/omnitrace-user/user.cpp:143-163 | each slot is kept when equal to the input's slot and nulled otherwise |
| UserCallbacks.Configure | source/lib/omnitrace-user/user.cpp:108-175 | the former table is always handed back; REPLACE/UNION/INTERSECT succeed with their tables; any other mode keeps the table and returns INVALID_CATEGORY |
| UserCallbacks.ReplaceWithFormerRestores | source/lib/omnitrace-user/user.cpp:108-175 | replacing with the handed-back former table undoes any configure call |
| UserCallbacks.UnionIdempotent | source/lib/omnitrace-user/user.cpp:121-141 | applying the same union twice equals applying it once |
| UserCallbacks.UnionIdentities | source/lib/omnitrace-user/user.cpp:121-141 | union with an empty table or with itself leaves the table unchanged |
| UserCallbacks.UnionKeepsBindings | source/lib/omnitrace-user/user.cpp:121-141 | a slot bound in either table is bound after the union |
| UserCallbacks.IntersectProperties | source/lib/omnitrace-user/user.cpp:143-163 | intersection is symmetric and idempotent, leaves a table intersected with itself unchanged, and never introduces a pointer |
| UserCallbacks.IntersectWithEmpty | source/lib/omnitrace-user/user.cpp:143-163 | intersecting with an empty table unbinds everything |
| UserCallbacks.ErrorString | source/lib/omnitrace-user/user.cpp:177-191 | "No error" exactly for codes it does not know |
| UserCallbacks.ErrorStringsDistinct | source/lib/omnitrace-user/user.cpp:177-191 | the five known codes have pairwise different messages |
| BacktraceMetrics.CategoryAt | source/lib/rocprof-sys/library/components/backtrace_metrics.hpp:65-70 | the category at each bit position of the validity set has that bit |
| BacktraceMetrics.BitRoundTrip | source/lib/rocprof-sys/library/components/backtrace_metrics.hpp:134-163 | the bit tested for a category identifies that category |
| BacktraceMetrics.Truthy | source/lib/rocprof-sys/library/components/backtrace_metrics.hpp:100 | a sample is truthy exactly when some validity bit is set |
| BacktraceMetrics.DefaultIsFalsy | source/lib/rocprof-sys/library/components/backtrace_metrics.hpp:126-131 | a default sample has no valid bit |
| BacktraceMetrics.Sample | source/lib/rocprof-sys/library/components/backtrace_metrics.cpp:161-194 | sampling off clears every bit and records nothing; otherwise the bits are the enabled categories, nothing is read when none is set, and counters are recorded only when both hardware bits are set |
| BacktraceMetrics.Subtract | source/lib/rocprof-sys/library/components/backtrace_metrics.cpp:330-361 | each field is subtracted only when the left operand's bit is set; the counters only when both hardware bits are; the bits are the left operand's |
| BacktraceMetrics.SubtractAddBack | source/lib/rocprof-sys/library/components/backtrace_metrics.cpp:330-361 | adding the right operand back to a subtracted field gives the left operand's value |
| BacktraceMetrics.SubtractIdentities | source/lib/rocprof-sys/library/components/backtrace_metrics.hpp:119-131 | subtracting a default sample changes nothing; `a - a` is zero in every valid field: CPU time, peak memory, context switches, page faults and the counters |
| BacktraceMetrics.SampleDifference | source/lib/rocprof-sys/library/components/backtrace_metrics.cpp:161-194 | the difference of two samples with the same enabled categories keeps those bits and is the difference of the readings in each enabled field: CPU clock, peak RSS, both context-switch counts, both page-fault counts and the counters |
| BacktraceMetrics.Configure | source/lib/rocprof-sys/library/components/backtrace_metrics.cpp:197-236 | the running flag changes only from true to false on tear-down; counters start only on setup while not running, and stop only on tear-down while running on that thread |
| BacktraceMetrics.TeardownIsIdempotent | source/lib/rocprof-sys/library/components/backtrace_metrics.cpp:197-236 | a second tear-down finds the sampler stopped and does nothing |
| BacktraceMetrics.UsageFrom | source/lib/rocprof-sys/library/components/backtrace_metrics.cpp:244-258 | at most one registered usage category per remaining bit, each with its bit set |
| BacktraceMetrics.UsageFromIsSetBits | source/lib/rocprof-sys/library/components/backtrace_metrics.cpp:244-258 | the registered usage categories are exactly the set usage bits from the start bit on, in strictly increasing bit order |
| BacktraceMetrics.RegisteredHardwareTracks | source/lib/rocprof-sys/library/components/backtrace_metrics.cpp:260-271 | one hardware track per counter label when both hardware bits are valid and none were registered before; none otherwise |
| BacktraceMetrics.HardwareWrites | source/lib/rocprof-sys/library/components/backtrace_metrics.cpp:396-407 | counter i goes to track i, for indices below both the track count and the counter count, and only when both hardware bits are valid |
| BacktraceMetrics.TruncDiv | source/lib/rocprof-sys/library/components/backtrace_metrics.cpp:364-394 | the unit conversions divide as C++ does, truncating toward zero: the quotient times the divisor lies between 0 and the dividend, and the remainder has the dividend's sign and is smaller than the divisor |
| BacktraceMetrics.UsageWritesLineUp | source/lib/rocprof-sys/library/components/backtrace_metrics.cpp:364-394 | the k-th usage write goes to track k and carries the k-th valid category |
| BacktraceMetrics.PostProcessMatchesRegistration | source/lib/rocprof-sys/library/components/backtrace_metrics.cpp:239-394 | a sample writes one value per registered usage track, track k carrying the k-th registered category, then one per registered hardware track that has a counter, in track order |
| BacktraceMetrics.HardwareWritesWithinTracks | source/lib/rocprof-sys/library/components/backtrace_metrics.cpp:260-407 | no counter write goes to a hardware track that was not registered |
| BacktraceMetrics.FiniMatchesRegistration | source/lib/rocprof-sys/library/components/backtrace_metrics.cpp:276-327 | without thread information nothing is written; otherwise exactly one closing 0 per registered usage track, with its category, and one per registered hardware track |
| ProcessSampler.CallAll | source/lib/omnitrace/library/process_sampler.cpp:103-105 | a hook is called once on every source, in registration order |
| ProcessSampler.TickOf | source/lib/omnitrace/library/process_sampler.cpp:97-107 | a round samples exactly when both loop-test reads are below Finalized and both body reads are Active; it leaves for the sampler's Finalized exactly at the loop test, and for the library's Finalized exactly when the body reads a finalized library; after sampling it leaves exactly when the duration is on and elapsed |
| ProcessSampler.PollFrom | source/lib/omnitrace/library/process_sampler.cpp:97-109 | the loop samples at most once per observation |
| ProcessSampler.EffectiveDuration | source/lib/omnitrace/library/process_sampler.cpp:90-91 | a negative process-sampling duration falls back to the sampling duration |
| ProcessSampler.EndTime | source/lib/omnitrace/library/process_sampler.cpp:94-96 | with a positive duration, the end lies at or after the start |
| ProcessSampler.Poll | source/lib/omnitrace/library/process_sampler.cpp:83-112 | the loop's rounds and exit reason are those of the reference step function; the events are one config call per source, then one sample per source per round; the sampling flag ends false |
| ProcessSampler.PollLoop | source/lib/omnitrace/library/process_sampler.cpp:97-109 | the loop's rounds and exit reason are those of the reference step function `PollFrom`; each round appends one sample event per source, in order |
| ProcessSampler.RoundsNeedActiveStates | source/lib/omnitrace/library/process_sampler.cpp:97-102 | rounds happen only for observations where both states were Active |
| ProcessSampler.FinalizedStopsPolling | source/lib/omnitrace/library/process_sampler.cpp:97 | once the sampler state reads Finalized at the loop test, no further round happens |
| ProcessSampler.ElapsedRoundIsLast | source/lib/omnitrace/library/process_sampler.cpp:107 | a round at or past the end time is the last one |
| ProcessSampler.Shutdown | source/lib/omnitrace/library/process_sampler.cpp:179-224 | the state becomes Finalized and every source is shut down; a thread is joined when its promise exists and cancelled otherwise; no thread remains; initialized is false |
| ProcessSampler.Setup | source/lib/omnitrace/library/process_sampler.cpp:130-177 | nothing when process sampling is off; otherwise shutdown, then rocm-smi (when enabled) before cpu-freq appended, every source set up, and the state Active with a thread and a promise |
| ProcessSampler.PostProcess | source/lib/omnitrace/library/process_sampler.cpp:226-233 | each source is post-processed once, then the list is empty |
| ProcessSampler.ShutdownIdempotent | source/lib/omnitrace/library/process_sampler.cpp:179-224 | a second shutdown finds no thread and changes nothing more |
| ProcessSampler.SetupThreadIsJoined | source/lib/omnitrace/library/process_sampler.cpp:163-211 | a thread started by setup always has its promise, so shutdown joins it |
| ProcessSampler.FullCycle | source/lib/omnitrace/library/process_sampler.cpp:130-233 | setup, shutdown, post-process from a fresh sampler leaves no source and no thread |
| ProcessSampler.SetupTwiceRegistersTwice | source/lib/omnitrace/library/process_sampler.cpp:141-161 | setup does not clear the list, so a second setup registers every source again |
| ProcessSampler.SetSamplerState | source/lib/omnitrace/library/process_sampler.cpp:235-239 | the sampler state is stored unconditionally; nothing else changes |
| ProcessSampler.SamplerStateMovesBackwards | source/lib/omnitrace/library/process_sampler.cpp:172-239 | after shutdown the sampler state can go from Finalized back to PreInit, where the process-wide store would throw in CI mode |
| CommRank.Updated | source/lib/omnitrace/library/components/mpi_gotcha.cpp:58-61 | an updated record is never the default record |
| CommRank.Eq | source/lib/omnitrace/library/components/mpi_gotcha.cpp:63-74 | record equality holds exactly for identical records |
| CommRank.Greater | source/lib/omnitrace/library/components/mpi_gotcha.cpp:76-89 | no record is greater than itself |
| CommRank.Less | source/lib/omnitrace/library/components/mpi_gotcha.cpp:91-94 | `<` holds exactly when the other record is `>` |
| CommRank.EqIsIdentity | source/lib/omnitrace/library/components/mpi_gotcha.cpp:63-74 | record equality is field equality, and `!=` its negation |
| CommRank.GreaterIsStrictTotalOrder | source/lib/omnitrace/library/components/mpi_gotcha.cpp:76-89 | `>` is irreflexive, asymmetric, transitive and total |
| CommRank.LessIsConverse | source/lib/omnitrace/library/components/mpi_gotcha.cpp:91-94 | `<` holds exactly when the other record is `>` |
| CommRank.DefaultNotUpdated | source/lib/omnitrace/library/components/mpi_gotcha.cpp:52-61 | the default record is not updated |
| CommRank.ScanStep | source/lib/omnitrace/library/components/mpi_gotcha.cpp:194-203 | one scan step keeps the current record or takes the entry, and never takes a null-keyed entry |
| CommRank.Select | source/lib/omnitrace/library/components/mpi_gotcha.cpp:192-203 | the scan's result is the start record or the record of an entry with a non-null key |
| CommRank.SelectIsMaximum | source/lib/omnitrace/library/components/mpi_gotcha.cpp:192-203 | the selected record is the greatest among the start record (when it has a communicator) and the entries with non-null keys |
| CommRank.Update | source/lib/omnitrace/library/components/mpi_gotcha.cpp:187-222 | publishes exactly when the selected record is updated and differs from the last published one, which it then becomes |
| CommRank.UpdateIdempotent | source/lib/omnitrace/library/components/mpi_gotcha.cpp:187-222 | an immediate second update publishes nothing |
| CommRank.MergeRankSize | source/lib/omnitrace/library/components/mpi_gotcha.cpp:347-363 | the rank is the largest of the stored rank, `m_rank` and the returned rank; the size the largest of the stored size, `m_size` and the returned size, or at least rank + 1 without a size pointer; the record and `m_rank`/`m_size` agree |
| CommRank.Stamp | source/lib/omnitrace/library/components/mpi_gotcha.cpp:342-363 | the communicator's record exists afterwards, carries its handle and never shrinks in rank or size; no other record and nothing else in the tracker changes |
| CommRank.AuditComm | source/lib/omnitrace/library/components/mpi_gotcha.cpp:342-379 | nothing happens on failure or a null communicator; otherwise the record is stamped, the keys gain exactly the communicator, and update runs exactly for an updated record below the limit, publishing what `update()` selects over the records in key order |
| CommRank.MergeIsStable | source/lib/omnitrace/library/components/mpi_gotcha.cpp:347-363 | merging the same returned rank and size again changes nothing |
| CommRank.StampIsStable | source/lib/omnitrace/library/components/mpi_gotcha.cpp:342-363 | stamping the same Comm_rank or Comm_size return twice is stamping it once |
| CommRank.RepeatedAuditIsStable | source/lib/omnitrace/library/components/mpi_gotcha.cpp:342-379 | a repeated Comm_rank or Comm_size audit leaves the records, `m_rank` and `m_size` as they were and publishes nothing |
| CommRank.CommRankMakesUpdated | source/lib/omnitrace/library/components/mpi_gotcha.cpp:342-363 | a successful Comm_rank with a non-negative rank leaves the record updated |
| CommRank.UpdateGate | source/lib/omnitrace/library/components/mpi_gotcha.cpp:371-377 | update runs exactly while the thread's counter is below the limit; the counter advances on every check |
| CommRank.GateBounded | source/lib/omnitrace/library/components/mpi_gotcha.cpp:371-377 | at most limit - n updated records reach update, and exactly that many when enough arrive |
| CommRank.InitFromProcessTree | source/lib/omnitrace/library/components/mpi_gotcha.cpp:327-340 | an updated record or an empty process list leaves everything; otherwise the parent becomes the communicator and the count the size, and the index the rank when it is not negative |
| CommRank.InitFallbackSticks | source/lib/omnitrace/library/components/mpi_gotcha.cpp:327-340 | once the fallback has produced an updated record, a later MPI_Init leaves it alone |
| Regions.TraceHidden | source/lib/rocprof-sys/regions.cpp:115-125 | the hidden trace entry points always use the host category |
| Regions.RegionHidden | source/lib/rocprof-sys/regions.cpp:133-143 | the hidden region entry points always use the user category |
| Regions.Forwarded | source/lib/rocprof-sys/regions.cpp:59-98 | annotations are forwarded only for a non-null array with perfetto annotations on, and then all count entries in order |
| Regions.Dispatch | source/lib/rocprof-sys/regions.cpp:40-108 | a region call happens only for the requested category, within the scanned range and enabled, with the given name and annotations |
| Regions.DispatchFinds | source/lib/rocprof-sys/regions.cpp:40-108 | the scan from an index finds exactly the categories from there up to LAST, and acts only when that category is enabled |
| Regions.CategoryRegionHidden | source/lib/rocprof-sys/regions.cpp:151-169 | a region is started or stopped exactly for a category strictly between NONE and LAST that is enabled, with the forwarded annotations |
| Regions.PushPopPair | source/lib/rocprof-sys/regions.cpp:151-169 | a push and a pop of the same category reach the same category and name |
| Dwarf.StringLessOrder | source/lib/binary/dwarf_entry.cpp:133-137 | the file-name comparison is a strict total order |
| Dwarf.Less | source/lib/binary/dwarf_entry.cpp:132-137 | an entry less than another is not equal to it |
| Dwarf.Eq | source/lib/binary/dwarf_entry.cpp:139-145 | entries are equal exactly when they differ at most in the line-table flags |
| Dwarf.NotEq | source/lib/binary/dwarf_entry.cpp:147-151 | unequal entries differ |
| Dwarf.IsValid | source/lib/binary/dwarf_entry.cpp:153-157 | an entry is valid exactly when it has a file name |
| Dwarf.LessIsStrictOrder | source/lib/binary/dwarf_entry.cpp:132-151 | `<` is irreflexive, asymmetric and transitive, and equal entries are unordered |
| Dwarf.OrderIgnoresIsa | source/lib/binary/dwarf_entry.cpp:132-151 | entries differing only in ISA or VLIW index are unequal yet neither is `<` the other |
| Dwarf.IsValidIffFile | source/lib/binary/dwarf_entry.cpp:153-157 | an entry is valid exactly when it has a file name |
| Dwarf.NormalisedLow | source/lib/binary/dwarf_entry.cpp:51-56 | low pc is replaced by the entry pc only when low > high and the entry pc is smaller |
| Dwarf.NonEmpty | source/lib/binary/dwarf_entry.cpp:60-69 | only non-empty listed ranges survive |
| Dwarf.NonEmptyKeepsExactly | source/lib/binary/dwarf_entry.cpp:60-69 | a range survives exactly when it was listed and is non-empty |
| Dwarf.AddressRanges | source/lib/binary/dwarf_entry.cpp:39-72 | no ranges for tags other than compile unit and subprogram; otherwise a non-empty repaired low/high pair comes first, every listed non-empty range is included, nothing else appears, and every range is non-empty |
| Dwarf.ContiguousRangeRepair | source/lib/binary/dwarf_entry.cpp:51-58 | an inverted low/high pair is repaired by a smaller entry pc and dropped otherwise; a proper pair comes first |
| Dwarf.BreakpointsAreReported | source/lib/binary/dwarf_entry.cpp:74-87 | an address is reported exactly when the entry is a subprogram with a positive count and an array whose first count points contain it |
| Dwarf.Breakpoints | source/lib/binary/dwarf_entry.cpp:74-87 | breakpoints only from subprograms with a positive count and an array, and then exactly the first count points |
| Dwarf.EntryOf | source/lib/binary/dwarf_entry.cpp:101-123 | a line is recorded only when positive; a missing source file falls back to the DIE name |
| Dwarf.LineEntries | source/lib/binary/dwarf_entry.cpp:89-129 | only compile units whose lines were read produce rows, one per line, a missing line giving a default row |
| Dwarf.ValidRows | source/lib/binary/dwarf_entry.cpp:89-157 | a produced row is valid exactly when libdw returned it and its resolved file name is non-empty |
| BinaryInfo.Sort | source/lib/binary/binary_info.hpp:60-68 | each of the five lists is normalised; the bfd and the sections are untouched |
| BinaryInfo.SortKeepsLookups | source/lib/binary/binary_info.hpp:60-85 | sorting changes neither what `find_section` finds nor the file name |
| BinaryInfo.SortIdempotent | source/lib/binary/binary_info.hpp:60-68 | with idempotent normalisations, sorting twice is sorting once |
| BinaryInfo.FindSection | source/lib/binary/binary_info.hpp:70-79 | the data of the first section containing the address, or nothing exactly when no section contains it |
| BinaryInfo.FindSectionUnique | source/lib/binary/binary_info.hpp:70-79 | when exactly one section contains the address, it is found whatever the iteration order |
| BinaryInfo.Filename | source/lib/binary/binary_info.hpp:81-85 | empty without a bfd, the bfd's name otherwise |
| Redirect.Keep | source/lib/core/redirect.hpp:81-96 | stripping never makes the text longer |
| Redirect.KeepExcludes | source/lib/core/redirect.hpp:81-96 | no listed character remains after stripping, and nothing is added |
| Redirect.KeepConcat | source/lib/core/redirect.hpp:81-96 | stripping distributes over concatenation, so the other characters keep their relative order |
| Redirect.KeepIdempotent | source/lib/core/redirect.hpp:81-96 | text without listed characters is unchanged, so stripping twice is stripping once |
| Redirect.Replace | source/lib/core/redirect.hpp:81-96 | the find-and-erase loops remove exactly the listed characters |
| Redirect.Redirects | source/lib/core/redirect.hpp:47-58 | the stream is redirected exactly when debug output is off |
| Redirect.Mismatch | source/lib/core/redirect.hpp:65-68 | identical texts never mismatch, and texts without whitespace mismatch exactly when they differ |
| Redirect.Diagnostic | source/lib/core/redirect.hpp:70-75 | the report starts with the tag and shows the expected and the found text in full, at fixed offsets |
| Redirect.OnDestroy | source/lib/core/redirect.hpp:60-79 | nothing without a redirect; otherwise the buffer is restored, a report goes out exactly on a mismatch with positive verbosity, and the captured text is replayed exactly on a mismatch with verbosity ≤ 0 or another stream |
| Redirect.WhitespaceIsIgnored | source/lib/core/redirect.hpp:65-79 | output that matches the expected text up to inserted newlines, tabs and spaces is swallowed |

## Left out

- The dynamic-loader plumbing of `dl.cpp` is not modelled: the `indirect` table, `dlopen`/`dlsym`, the link-map walk itself and the `__libc_start_main` interposition. Whether the forwarded call ran, the link map and the environment are inputs.
- What `rocprofsys_preinit` and `rocprofsys_postinit` do inside their working cases is left out: the MPI set-up, the tooling initialisation and the push of the main trace call into code this model does not cover. Which hooks are called, and whether they reach a working case, is `Admission.InitHooksFor`.
- Admission.Enter: models the pops as mirroring the pushes. The categorized pop as written (dl.cpp:764) increments the counter instead; `Admission.PopCategoryRegionAsWritten` models that, and the Findings table shows the consequence.
- Admission.MatchedPairKeepsGate: does not cover counter -1. There a matched pair re-enables the thread instead, as `Admission.MatchedPairAtMinusOne` states.
- `rocprofsys_main`'s call of `rocprofsys_init`, the real `main`, `pop_trace` and `finalize` after the import are left out. The guards they pass through are modelled on their own.
- Admission.MainEntry: a missing real `main` throws in the source; the model returns an error value instead.
- Threads, promises, sleeps, `pthread_cancel`, and the bounded busy-wait on the sampling flag in `sampler::shutdown` are not modelled. The poll loop is one thread; the states it reads and the clock readings are a sequence of observations.
- The sampling interval `(1.0 / freq) * 1e3` and all other floating-point arithmetic are left out. The interval is an input. The duration is a `real`, converted to whole nanoseconds by truncation.
- The sampler's intermediate `PreInit` write in `setup` is not a step of its own. `ProcessSampler.Setup` ends in `Active`, and `ProcessSampler.SamplerStateMovesBackwards` shows the backwards store.
- PAPI, rusage and clock reads in `backtrace_metrics.cpp` are parameters, and `TRACE_COUNTER` output is a list of writes. Track names and timestamps are left out.
- Integer widths are not modelled. The `int64_t` fields and the `int` rank/size are unbounded integers, so overflow and wrap-around are not covered.
- CommRank.Greater: the CI-mode throw when two non-updated records are compared (mpi_gotcha.cpp:78-79) is not modelled; the comparison follows its non-CI result.
- BacktraceMetrics.FiniWrites: the CI-mode throw on missing thread information (backtrace_metrics.cpp:281) is not modelled; the model takes the early return that follows it outside CI mode.
- BacktraceMetrics.RegisteredHardwareTracks: the CI-mode throw on an empty counter description (backtrace_metrics.cpp:268) is not modelled; it can fire only for an empty counter label, since an empty description falls back to the label. The model registers the track, as happens outside CI mode.
- ProcessSampler.Shutdown: the CI-mode throw when the "polling finished" promise is missing (process_sampler.cpp:204) is not modelled; the model cancels the thread, as happens outside CI mode.
- BacktraceMetrics.UsageFrom: its own contract states only the bound and that each listed bit is set; completeness and strict bit order are in `BacktraceMetrics.UsageFromIsSetBits`.
- MPI side effects are not modelled: attribute callbacks, `tim::mpi::set_rank`, settings, mpip activation and the gotcha configuration.
- The MPI process tree (`getppid`, the concurrent-process count and index) is an input, and so are the stored `m_rank`/`m_size`.
- `dwarf_entry::process_dwarf` is not modelled. It walks libdw's compile units and depends entirely on libdw.
- The cereal serialisation of `dwarf_entry` is not modelled.
- libdw's answers are inputs. `realpath` is a function parameter.
- `address_range` is reduced to its low bound for line entries. `filter_sort_unique` and `address_range::contains` are not part of this model; they are parameters.
- The sections of `binary_info` are an unordered map in the source. The model takes them in the map's iteration order.
- Redirect.Replace: only the default empty replacement is modelled, the only one used. With a replacement that contains the searched character, the source's loop would not end.
- The stream objects of `redirect` are not modelled: buffers, `rdbuf` and the diagnostic's exact output stream. The report and the replayed text are values.
- Logging and locking are left out. Each CI-only throw in the modelled code is named above on the line of the member it affects, except the one in `set_state`, which is modelled.
- Causal profiling is left out; only its declarations belong to the modelled code.
- The GPU and vendor backends are left out, as are the thin API wrappers.

## Findings

| source | as written | input that shows it | evidently intended | confidence | as-written member | corrected member |
|---|---|---|---|---|---|---|
| source/lib/rocprof-sys-dl/dl.cpp:764 | `rocprofsys_pop_category_region` on a disabled thread increments the disabled-depth counter, as the pushes do | thread disabled at counter 0: push_category_region, pop_category_region, then pop_region for the region open at disable time; the counter ends at 2, then 1, and the thread stays disabled | post-decrement and re-enable at 0, like `pop_trace` and `pop_region`, so matched pairs cancel at every counter except -1 | medium, not executed | Admission.CategoryPairAsWrittenStaysDisabled | Admission.MatchedPairKeepsGate |
