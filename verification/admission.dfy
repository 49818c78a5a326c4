/**
  The preload/dispatch admission layer of `librocprof-sys-dl`
  (rocprof-sys-dl/dl.cpp): the init/finalize guard flags, the per-thread
  gate for push/pop entry points, the `LD_PRELOAD` clean-up, the import of
  `envp` entries, the stored instrumentation mode and the default mode.

  Forwarding into the real library, `dlopen` and the environment are not
  modelled as effects: whether a forwarded call succeeded, the link map and
  the environment are inputs, and the decisions are pure functions of them.
 */
module Admission {

  import opened Common

  // ---------------------------------------------------------------------------
  // init / finalize guards
  // ---------------------------------------------------------------------------

  /** The three process-wide flags `get_inited`, `get_finied`, `get_active`. */
  datatype DlFlags = DlFlags(inited: bool, finied: bool, active: bool)

  const InitialFlags: DlFlags := DlFlags(false, false, false)

  /** Why a call was ignored, or whether its forwarded call ran. */
  datatype GuardOutcome =
    | IgnoredInitializedAndFinalized
    | IgnoredInitializedAndActive
    | IgnoredFinalizedNotActive
    | Forwarded(invoked: bool)

  datatype GuardStep = GuardStep(flags: DlFlags, outcome: GuardOutcome)

  /**
    `rocprofsys_init`: ignored when already initialized and finalized, or
    initialized and active; otherwise forwarded, and a forwarded call that
    ran sets `active` and `inited`. `invoked` is whether the forwarded
    call ran.
   */
  function DlInit(f: DlFlags, invoked: bool): (r: GuardStep)
    ensures (f.inited && f.finied) || (f.inited && f.active) ==> r.flags == f && !r.outcome.Forwarded?
    ensures !((f.inited && f.finied) || (f.inited && f.active)) ==> r.outcome == Forwarded(invoked)
    ensures r.outcome == Forwarded(true) ==> r.flags == f.(active := true, inited := true)
    ensures r.outcome == Forwarded(false) ==> r.flags == f
  {
    if f.inited && f.finied then GuardStep(f, IgnoredInitializedAndFinalized)
    else if f.inited && f.active then GuardStep(f, IgnoredInitializedAndActive)
    else if invoked then GuardStep(f.(active := true, inited := true), Forwarded(true))
    else GuardStep(f, Forwarded(false))
  }

  /**
    `rocprofsys_finalize`: ignored when already initialized and finalized,
    or finalized and not active; a forwarded call that ran clears `active`
    and sets `finied`.
   */
  function DlFinalize(f: DlFlags, invoked: bool): (r: GuardStep)
    ensures (f.inited && f.finied) || (f.finied && !f.active) ==> r.flags == f && !r.outcome.Forwarded?
    ensures !((f.inited && f.finied) || (f.finied && !f.active)) ==> r.outcome == Forwarded(invoked)
    ensures r.outcome == Forwarded(true) ==> r.flags == f.(active := false, finied := true)
    ensures r.outcome == Forwarded(false) ==> r.flags == f
  {
    if f.inited && f.finied then GuardStep(f, IgnoredInitializedAndFinalized)
    else if f.finied && !f.active then GuardStep(f, IgnoredFinalizedNotActive)
    else if invoked then GuardStep(f.(active := false, finied := true), Forwarded(true))
    else GuardStep(f, Forwarded(false))
  }

  /** A call to either guarded entry point, with whether its forwarded call would run. */
  datatype GuardCall = InitCall(invoked: bool) | FinalizeCall(invoked: bool)

  function RunGuards(f: DlFlags, calls: seq<GuardCall>): DlFlags
    decreases |calls|
  {
    if |calls| == 0 then f
    else
      var next := match calls[0]
        case InitCall(ok) => DlInit(f, ok).flags
        case FinalizeCall(ok) => DlFinalize(f, ok).flags;
      RunGuards(next, calls[1..])
  }

  /**
    An init and then a finalize that both go through leave the flags
    initialised and finalised; from any such flags every later init or
    finalize is ignored, whatever the forwarded calls would do.
   */
  lemma {:induction false} InitFinalizeIsFinal(f: DlFlags, calls: seq<GuardCall>)
    ensures var done := DlFinalize(DlInit(InitialFlags, true).flags, true).flags;
            done.inited && done.finied
    ensures f.inited && f.finied ==> RunGuards(f, calls) == f
    decreases |calls|
  {
    if |calls| > 0 {
      InitFinalizeIsFinal(f, calls[1..]);
    }
  }

  // ---------------------------------------------------------------------------
  // Per-thread gate of the push/pop entry points
  // ---------------------------------------------------------------------------

  /**
    `get_thread_enabled()` and `get_thread_count()` of one thread: whether its
    calls are forwarded, and the depth of calls made while disabled.
   */
  datatype ThreadGate = ThreadGate(enabled: bool, count: int)

  datatype EntryPoint =
    | PushTrace | PopTrace
    | PushRegion | PopRegion
    | PushCategoryRegion | PopCategoryRegion

  datatype GateAction = NotActive | ForwardCall | CountedWhileDisabled

  /** One entry point's effect on the gate and its return value (0 for void ones). */
  datatype GateStep = GateStep(gate: ThreadGate, action: GateAction, returned: int)

  /** A disabled-thread pop: post-decrement, re-enabling exactly when the counter was 0. */
  function PopDisabled(g: ThreadGate): (r: ThreadGate)
    ensures r.count == g.count - 1
    ensures r.enabled <==> g.count == 0
  {
    ThreadGate(g.count == 0, g.count - 1)
  }

  /** A disabled-thread push: the counter goes up. */
  function PushDisabled(g: ThreadGate): (r: ThreadGate)
    ensures r == g.(count := g.count + 1)
  {
    g.(count := g.count + 1)
  }

  /**
    A push/pop entry point (`rocprofsys_push_trace`, ...): nothing happens
    and 0 is returned when the library is not active; an enabled thread
    forwards and returns the forwarded result `forwarded`; a disabled thread
    counts instead. Pops of categorized regions are modelled as the other
    pops are; `PopCategoryRegionAsWritten` is the source's own version.
   */
  function Enter(active: bool, g: ThreadGate, e: EntryPoint, forwarded: int): (r: GateStep)
    ensures !active ==> r == GateStep(g, NotActive, 0)
    ensures active && g.enabled ==> r == GateStep(g, ForwardCall, forwarded)
    ensures active && !g.enabled ==> r.action == CountedWhileDisabled && r.returned == 0
    ensures active && !g.enabled && (e.PushTrace? || e.PushRegion? || e.PushCategoryRegion?) ==>
              r.gate == g.(count := g.count + 1)
    ensures active && !g.enabled && (e.PopTrace? || e.PopRegion? || e.PopCategoryRegion?) ==>
              r.gate.count == g.count - 1 && (r.gate.enabled <==> g.count == 0)
  {
    if !active then GateStep(g, NotActive, 0)
    else if g.enabled then GateStep(g, ForwardCall, forwarded)
    else match e
      case PushTrace => GateStep(PushDisabled(g), CountedWhileDisabled, 0)
      case PushRegion => GateStep(PushDisabled(g), CountedWhileDisabled, 0)
      case PushCategoryRegion => GateStep(PushDisabled(g), CountedWhileDisabled, 0)
      case PopTrace => GateStep(PopDisabled(g), CountedWhileDisabled, 0)
      case PopRegion => GateStep(PopDisabled(g), CountedWhileDisabled, 0)
      case PopCategoryRegion => GateStep(PopDisabled(g), CountedWhileDisabled, 0)
  }

  /**
    `rocprofsys_pop_category_region` as written: on a disabled thread it
    increments the counter, exactly as the push does.
   */
  function PopCategoryRegionAsWritten(active: bool, g: ThreadGate, forwarded: int): (r: GateStep)
    ensures active && !g.enabled ==> r.gate == g.(count := g.count + 1)
    ensures !(active && !g.enabled) ==> r == Enter(active, g, PopCategoryRegion, forwarded)
  {
    if !active then GateStep(g, NotActive, 0)
    else if g.enabled then GateStep(g, ForwardCall, forwarded)
    else GateStep(PushDisabled(g), CountedWhileDisabled, 0)
  }

  /**
    As written, a matched categorized push/pop on a disabled thread leaves
    the counter two higher, so the pop of the enclosing region no longer
    re-enables the thread.
   */
  lemma CategoryPairAsWrittenStaysDisabled()
    ensures var g0 := ThreadGate(false, 0);
            var g1 := Enter(true, g0, PushCategoryRegion, 0).gate;
            var g2 := PopCategoryRegionAsWritten(true, g1, 0).gate;
            g2 == ThreadGate(false, 2) && !Enter(true, g2, PopRegion, 0).gate.enabled
  {
  }

  /**
    With pops that mirror pushes, a matched push/pop pair on a disabled
    thread leaves the gate as it was unless the counter is -1, and the pop
    that closes the region open when the thread was disabled re-enables it.
   */
  lemma MatchedPairKeepsGate(g: ThreadGate, push: EntryPoint, pop: EntryPoint)
    requires !g.enabled && g.count != -1
    requires push.PushTrace? || push.PushRegion? || push.PushCategoryRegion?
    requires pop.PopTrace? || pop.PopRegion? || pop.PopCategoryRegion?
    ensures Enter(true, Enter(true, g, push, 0).gate, pop, 0).gate == g
    ensures g.count == 0 ==> Enter(true, g, pop, 0).gate.enabled
  {
  }

  /**
    At counter -1 a matched pair re-enables the thread: the push brings the
    counter to 0 and the pop's post-decrement sees 0.
   */
  lemma MatchedPairAtMinusOne(push: EntryPoint, pop: EntryPoint)
    requires push.PushTrace? || push.PushRegion? || push.PushCategoryRegion?
    requires pop.PopTrace? || pop.PopRegion? || pop.PopCategoryRegion?
    ensures Enter(true, Enter(true, ThreadGate(false, -1), push, 0).gate, pop, 0).gate == ThreadGate(true, -1)
  {
  }

  /**
    Counter -1 on a disabled thread is reachable from an enabled thread at 0:
    stop the thread trace, pop a region that was never pushed (which
    re-enables the thread at -1), and stop the thread trace again.
   */
  lemma MinusOneIsReachable()
    ensures var g1 := SetThreadTrace(ThreadGate(true, 0), false).0;
            var g2 := Enter(true, g1, PopRegion, 0).gate;
            var g3 := SetThreadTrace(g2, false).0;
            g1 == ThreadGate(false, 0) && g2 == ThreadGate(true, -1) && g3 == ThreadGate(false, -1)
  {
  }

  /** `rocprofsys_user_start_thread_trace_dl` / `..._stop_...`: set the thread flag, return 0. */
  function SetThreadTrace(g: ThreadGate, on: bool): (r: (ThreadGate, int))
    ensures r.0.enabled == on && r.0.count == g.count && r.1 == 0
  {
    (g.(enabled := on), 0)
  }

  // ---------------------------------------------------------------------------
  // LD_PRELOAD clean-up
  // ---------------------------------------------------------------------------

  const DlLibrary: string := "librocprof-sys-dl.so"
  const OwnLibraryPrefix: string := "librocprof-sys"

  /**
    `delimit(s, ":")`: the non-empty runs of characters between ':'
    separators, in order.
   */
  function Split(s: string): seq<string> {
    SplitFrom(s, "")
  }

  /** Splitting the rest of the text while `cur` holds the token read so far. */
  function SplitFrom(s: string, cur: string): seq<string>
    decreases |s|
  {
    if |s| == 0 then (if |cur| == 0 then [] else [cur])
    else if s[0] == ':' then
      (if |cur| == 0 then [] else [cur]) + SplitFrom(s[1..], "")
    else SplitFrom(s[1..], cur + [s[0]])
  }

  /** A token as `delimit` produces it: non-empty and free of ':'. */
  predicate IsToken(t: string) {
    |t| > 0 && ':' !in t
  }

  /** Tokens joined by single ':' separators. */
  function JoinColon(ts: seq<string>): string
    decreases |ts|
  {
    if |ts| == 0 then ""
    else if |ts| == 1 then ts[0]
    else ts[0] + ":" + JoinColon(ts[1..])
  }

  /** The tokens `reset_rocprofsys_preload` keeps: those not naming a profiler library. */
  function KeptEntries(ts: seq<string>): (r: seq<string>)
    ensures |r| <= |ts|
    ensures forall t :: t in r <==> t in ts && !Contains(t, OwnLibraryPrefix)
    decreases |ts|
  {
    if |ts| == 0 then []
    else (if Contains(ts[0], OwnLibraryPrefix) then [] else [ts[0]]) + KeptEntries(ts[1..])
  }

  /** The source's accumulation: `":" + token` for every kept token. */
  function Accumulate(ts: seq<string>): string
    decreases |ts|
  {
    if |ts| == 0 then ""
    else (if Contains(ts[0], OwnLibraryPrefix) then "" else ":" + ts[0]) + Accumulate(ts[1..])
  }

  /** Drop one leading ':' from a non-empty text, as the source does after the loop. */
  function DropLeadingColon(s: string): string {
    if |s| > 0 && s[0] == ':' then s[1..] else s
  }

  /**
    `reset_rocprofsys_preload`: `None` when `LD_PRELOAD` does not name the dl
    library (the variable is left alone), otherwise the value it is reset to.
   */
  function ResetPreload(ldPreload: string): (r: Option<string>)
    ensures r.None? <==> !Contains(ldPreload, DlLibrary)
  {
    if Contains(ldPreload, DlLibrary) then Some(DropLeadingColon(Accumulate(Split(ldPreload))))
    else None
  }

  // --- facts about splitting and joining ---

  lemma {:induction false} SplitFromAppend(t: string, rest: string, cur: string)
    requires ':' !in t
    ensures SplitFrom(t + rest, cur) == SplitFrom(rest, cur + t)
    decreases |t|
  {
    if |t| > 0 {
      assert (t + rest)[0] == t[0];
      assert (t + rest)[1..] == t[1..] + rest;
      SplitFromAppend(t[1..], rest, cur + [t[0]]);
      assert cur + [t[0]] + t[1..] == cur + t;
    } else {
      assert t + rest == rest;
      assert cur + t == cur;
    }
  }

  /** Every token `Split` returns is a genuine token. */
  lemma {:induction false} SplitFromTokens(s: string, cur: string)
    requires ':' !in cur
    ensures forall t :: t in SplitFrom(s, cur) ==> IsToken(t)
    decreases |s|
  {
    if |s| > 0 {
      if s[0] == ':' {
        SplitFromTokens(s[1..], "");
      } else {
        SplitFromTokens(s[1..], cur + [s[0]]);
      }
    }
  }

  /** Round trip: splitting tokens joined by ':' gives the tokens back. */
  lemma {:induction false} SplitJoin(ts: seq<string>)
    requires forall t :: t in ts ==> IsToken(t)
    ensures Split(JoinColon(ts)) == ts
    decreases |ts|
  {
    if |ts| == 1 {
      assert ts[0] in ts;
      SplitFromAppend(ts[0], "", "");
      assert ts[0] + "" == ts[0];
      assert "" + ts[0] == ts[0];
    } else if |ts| > 1 {
      assert ts[0] in ts;
      var rest := JoinColon(ts[1..]);
      assert forall t :: t in ts[1..] ==> t in ts;
      SplitJoin(ts[1..]);
      assert ts[0] + ":" + rest == ts[0] + (":" + rest);
      SplitFromAppend(ts[0], ":" + rest, "");
      assert "" + ts[0] == ts[0];
      assert (":" + rest)[0] == ':';
      assert (":" + rest)[1..] == rest;
      assert SplitFrom(":" + rest, ts[0]) == [ts[0]] + SplitFrom(rest, "");
      assert ts == [ts[0]] + ts[1..];
    }
  }

  /** The accumulated text is the kept tokens joined, behind one extra ':'. */
  lemma {:induction false} AccumulateIsJoin(ts: seq<string>)
    ensures |KeptEntries(ts)| == 0 ==> Accumulate(ts) == ""
    ensures |KeptEntries(ts)| > 0 ==> Accumulate(ts) == ":" + JoinColon(KeptEntries(ts))
    decreases |ts|
  {
    if |ts| > 0 {
      AccumulateIsJoin(ts[1..]);
      var k := KeptEntries(ts[1..]);
      if Contains(ts[0], OwnLibraryPrefix) {
        assert KeptEntries(ts) == k;
        assert Accumulate(ts) == Accumulate(ts[1..]);
      } else {
        assert KeptEntries(ts) == [ts[0]] + k;
        assert Accumulate(ts) == ":" + ts[0] + Accumulate(ts[1..]);
        JoinColonCons(ts[0], k);
      }
    }
  }

  /** Joining one more token in front puts it and a ':' before the rest. */
  lemma JoinColonCons(t: string, k: seq<string>)
    ensures |k| == 0 ==> JoinColon([t] + k) == t
    ensures |k| > 0 ==> JoinColon([t] + k) == t + ":" + JoinColon(k)
  {
    assert ([t] + k)[1..] == k;
  }

  /**
    The reset value is the surviving entries, in their original order,
    joined by ':' with no leading ':'; splitting it again gives exactly the
    entries that do not name a profiler library.
   */
  lemma ResetPreloadKeepsOthers(ldPreload: string)
    requires Contains(ldPreload, DlLibrary)
    ensures ResetPreload(ldPreload) == Some(JoinColon(KeptEntries(Split(ldPreload))))
    ensures Split(ResetPreload(ldPreload).value) == KeptEntries(Split(ldPreload))
    ensures var v := ResetPreload(ldPreload).value; |v| == 0 || v[0] != ':'
  {
    var ts := Split(ldPreload);
    SplitFromTokens(ldPreload, "");
    AccumulateIsJoin(ts);
    var k := KeptEntries(ts);
    if |k| > 0 {
      assert (":" + JoinColon(k))[1..] == JoinColon(k);
    }
    SplitJoin(k);
    if |k| > 0 {
      JoinStartsWithToken(k);
      assert k[0] in k;
      var v := JoinColon(k);
      assert v[..|k[0]|] == k[0];
      assert v[0] == k[0][0];
    }
  }

  /** A join of tokens starts with its first token. */
  lemma JoinStartsWithToken(ts: seq<string>)
    requires |ts| > 0
    ensures StartsWith(JoinColon(ts), ts[0])
  {
    if |ts| > 1 {
      assert JoinColon(ts) == ts[0] + (":" + JoinColon(ts[1..]));
    }
  }

  /** A text containing a pattern also contains every prefix of that pattern. */
  lemma ContainsPrefix(s: string, pat: string, pre: string)
    requires Contains(s, pat) && StartsWith(pat, pre)
    ensures Contains(s, pre)
  {
    var i :| 0 <= i <= |s| - |pat| && OccursAt(s, pat, i);
    assert s[i..i + |pre|] == pat[..|pre|];
    assert OccursAt(s, pre, i);
  }

  /**
    A pattern without ':' that occurs in none of the tokens does not occur in
    their ':'-join either.
   */
  lemma {:induction false} JoinAvoids(ts: seq<string>, pat: string)
    requires |pat| > 0 && ':' !in pat
    requires forall t :: t in ts ==> !Contains(t, pat)
    ensures !Contains(JoinColon(ts), pat)
    decreases |ts|
  {
    if |ts| > 1 {
      JoinAvoids(ts[1..], pat);
      var t := ts[0];
      var rest := JoinColon(ts[1..]);
      var j := JoinColon(ts);
      assert j == t + ":" + rest;
      assert t in ts;
      forall i | 0 <= i <= |j| - |pat|
        ensures !OccursAt(j, pat, i)
      {
        if i + |pat| <= |t| {
          assert j[i..i + |pat|] == t[i..i + |pat|];
          assert !OccursAt(t, pat, i);
        } else if i <= |t| {
          assert j[i..i + |pat|][|t| - i] == ':';
        } else {
          assert j[i..i + |pat|] == rest[i - |t| - 1..i - |t| - 1 + |pat|];
          assert !OccursAt(rest, pat, i - |t| - 1);
        }
      }
    }
  }

  /**
    Resetting is idempotent: the reset value no longer names the dl library,
    so a second reset leaves the variable alone.
   */
  lemma ResetPreloadIdempotent(ldPreload: string)
    requires Contains(ldPreload, DlLibrary)
    ensures ResetPreload(ResetPreload(ldPreload).value).None?
  {
    ResetPreloadKeepsOthers(ldPreload);
    var k := KeptEntries(Split(ldPreload));
    forall t | t in k
      ensures !Contains(t, DlLibrary)
    {
      if Contains(t, DlLibrary) {
        ContainsPrefix(t, DlLibrary, OwnLibraryPrefix);
      }
    }
    JoinAvoids(k, DlLibrary);
  }

  // ---------------------------------------------------------------------------
  // envp import in rocprofsys_main
  // ---------------------------------------------------------------------------

  const EnvPrefix: string := "ROCPROFSYS"

  /**
    What the import loop does with one `envp` entry: skip it unless it starts
    with `ROCPROFSYS` or mentions `librocprof-sys`; skip it if it has no
    '='; otherwise split it at the first '=' into name and value.
   */
  function ImportEntry(e: string): (r: Option<(string, string)>)
    ensures r.Some? ==> (StartsWith(e, EnvPrefix) || Contains(e, OwnLibraryPrefix)) && '=' in e
    ensures r.Some? ==> e == r.value.0 + "=" + r.value.1 && '=' !in r.value.0
    ensures r.None? ==> (!StartsWith(e, EnvPrefix) && !Contains(e, OwnLibraryPrefix)) || '=' !in e
  {
    if !StartsWith(e, EnvPrefix) && !Contains(e, OwnLibraryPrefix) then None
    else match IndexOf(e, '=')
      case None => None
      case Some(p) =>
        assert e == e[..p] + "=" + e[p + 1..];
        Some((e[..p], e[p + 1..]))
  }

  /**
    `setenv(name, value, 0)`: an existing variable is never overwritten; an
    empty name is refused by `setenv`.
   */
  function SetEnvNoOverwrite(env: map<string, string>, name: string, value: string): (r: map<string, string>)
    ensures forall k :: k in env ==> k in r && r[k] == env[k]
    ensures forall k :: k in r && k !in env ==> k == name && |name| > 0 && r[k] == value
    ensures |name| > 0 ==> name in r
  {
    if |name| == 0 || name in env then env else env[name := value]
  }

  /** Entry `e` is accepted and names the variable `name`. */
  predicate Imports(e: string, name: string) {
    ImportEntry(e).Some? && ImportEntry(e).value.0 == name
  }

  /** The value the first accepted entry naming `name` carries, if any entry names it. */
  function FirstImport(envp: seq<string>, name: string): Option<string>
    decreases |envp|
  {
    if |envp| == 0 then None
    else
      var earlier := FirstImport(envp[..|envp| - 1], name);
      if earlier.Some? then earlier
      else if Imports(envp[|envp| - 1], name) then Some(ImportEntry(envp[|envp| - 1]).value.1)
      else None
  }

  /**
    `FirstImport` finds the earliest entry naming the variable: it has a
    value exactly when some entry names it, and then the value is that of
    an entry with no earlier entry naming the same variable.
   */
  lemma {:induction false} FirstImportIsEarliest(envp: seq<string>, name: string)
    ensures FirstImport(envp, name).None? <==> forall j :: 0 <= j < |envp| ==> !Imports(envp[j], name)
    ensures FirstImport(envp, name).Some? ==>
              exists j :: 0 <= j < |envp| && Imports(envp[j], name) &&
                          ImportEntry(envp[j]).value.1 == FirstImport(envp, name).value &&
                          forall j' :: 0 <= j' < j ==> !Imports(envp[j'], name)
    decreases |envp|
  {
    if |envp| > 0 {
      var pre := envp[..|envp| - 1];
      FirstImportIsEarliest(pre, name);
      assert forall j :: 0 <= j < |pre| ==> pre[j] == envp[j];
      if FirstImport(pre, name).Some? {
        var j :| 0 <= j < |pre| && Imports(pre[j], name) &&
                 ImportEntry(pre[j]).value.1 == FirstImport(pre, name).value &&
                 forall j' :: 0 <= j' < j ==> !Imports(pre[j'], name);
        assert Imports(envp[j], name);
      } else if Imports(envp[|envp| - 1], name) {
        assert forall j' :: 0 <= j' < |envp| - 1 ==> !Imports(envp[j'], name);
      }
    }
  }

  /** One iteration of the import loop: set the entry's variable when it is accepted. */
  function ImportOne(out: map<string, string>, e: string): map<string, string> {
    match ImportEntry(e)
    case None => out
    case Some(nv) => SetEnvNoOverwrite(out, nv.0, nv.1)
  }

  /**
    `out` is `env` after importing `envp`: variables of `env` are kept;
    another variable is present exactly when its name is non-empty and some
    accepted entry names it, with the value of the first such entry.
   */
  ghost predicate ImportedFrom(env: map<string, string>, envp: seq<string>, out: map<string, string>) {
    (forall k :: k in env ==> k in out && out[k] == env[k]) &&
    (forall k :: k !in env ==> (k in out <==> |k| > 0 && FirstImport(envp, k).Some?)) &&
    (forall k :: k in out && k !in env ==> out[k] == FirstImport(envp, k).value)
  }

  /** `FirstImport` over one more entry: the earlier answer, else the new entry's. */
  lemma FirstImportSnoc(pre: seq<string>, e: string, k: string)
    ensures FirstImport(pre + [e], k) ==
            if FirstImport(pre, k).Some? then FirstImport(pre, k)
            else if Imports(e, k) then Some(ImportEntry(e).value.1) else None
  {
    var q := pre + [e];
    assert q[..|q| - 1] == pre;
    assert q[|q| - 1] == e;
  }

  /** One more entry imported, for one variable not set before the import. */
  lemma ImportOneKey(env: map<string, string>, pre: seq<string>, e: string, out: map<string, string>, k: string)
    requires ImportedFrom(env, pre, out)
    requires k !in env
    ensures k in ImportOne(out, e) <==> |k| > 0 && FirstImport(pre + [e], k).Some?
    ensures k in ImportOne(out, e) ==> ImportOne(out, e)[k] == FirstImport(pre + [e], k).value
  {
    FirstImportSnoc(pre, e, k);
    assert k in out <==> |k| > 0 && FirstImport(pre, k).Some?;
  }

  /** One more entry imported keeps `ImportedFrom`. */
  lemma ImportOneStep(env: map<string, string>, pre: seq<string>, e: string, out: map<string, string>)
    requires ImportedFrom(env, pre, out)
    ensures ImportedFrom(env, pre + [e], ImportOne(out, e))
  {
    forall k | k !in env
      ensures k in ImportOne(out, e) <==> |k| > 0 && FirstImport(pre + [e], k).Some?
      ensures k in ImportOne(out, e) ==> ImportOne(out, e)[k] == FirstImport(pre + [e], k).value
    {
      ImportOneKey(env, pre, e, out, k);
    }
  }

  /** The environment after importing every entry of `envp` in order. */
  function ImportAll(env: map<string, string>, envp: seq<string>): map<string, string>
    decreases |envp|
  {
    if |envp| == 0 then env else ImportOne(ImportAll(env, envp[..|envp| - 1]), envp[|envp| - 1])
  }

  /**
    Importing keeps the variables already set; another variable is set
    exactly when its name is non-empty and some accepted entry names it,
    and then from the first such entry.
   */
  lemma {:induction false} ImportAllMeaning(env: map<string, string>, envp: seq<string>)
    ensures ImportedFrom(env, envp, ImportAll(env, envp))
    decreases |envp|
  {
    if |envp| > 0 {
      var pre := envp[..|envp| - 1];
      ImportAllMeaning(env, pre);
      ImportOneStep(env, pre, envp[|envp| - 1], ImportAll(env, pre));
      assert pre + [envp[|envp| - 1]] == envp;
    }
  }

  /** The import loop of `rocprofsys_main`, entry by entry in order. */
  method ImportLoop(env: map<string, string>, envp: seq<string>) returns (out: map<string, string>)
    ensures out == ImportAll(env, envp)
  {
    out := env;
    var i := 0;
    while i < |envp|
      invariant 0 <= i <= |envp|
      invariant out == ImportAll(env, envp[..i])
    {
      assert envp[..i + 1][..i] == envp[..i];
      var entry := ImportEntry(envp[i]);
      if entry.Some? {
        var name := entry.value.0;
        if |name| > 0 && name !in out {
          out := out[name := entry.value.1];
        }
      }
      i := i + 1;
    }
    assert envp[..|envp|] == envp;
  }

  /**
    The import of `rocprofsys_main`: variables already set keep their
    values; another variable is set exactly when its name is non-empty and
    some accepted entry names it, and then from the first such entry.
   */
  method ImportEnvironment(env: map<string, string>, envp: seq<string>) returns (out: map<string, string>)
    ensures forall k :: k in env ==> k in out && out[k] == env[k]
    ensures forall k :: k !in env ==> (k in out <==> |k| > 0 && FirstImport(envp, k).Some?)
    ensures forall k :: k in out && k !in env ==> out[k] == FirstImport(envp, k).value
  {
    out := ImportLoop(env, envp);
    ImportAllMeaning(env, envp);
  }

  /** What `rocprofsys_main` does before calling the real `main`. */
  datatype MainStart =
    | Reentered                       // returns -1
    | MissingRealMain                 // throws
    | Proceed(env: map<string, string>)

  /**
    The start of `rocprofsys_main`: a second call returns -1 at once; a
    missing real `main` throws; otherwise the `envp` entries are imported
    (when `envp` is non-null). The first component is the re-entry flag
    afterwards.
   */
  method MainEntry(reentry: bool, hasRealMain: bool, env: map<string, string>, envp: Option<seq<string>>)
    returns (reentryAfter: bool, r: MainStart)
    ensures reentryAfter
    ensures reentry <==> r.Reentered?
    ensures !reentry && !hasRealMain ==> r.MissingRealMain?
    ensures !reentry && hasRealMain && envp.None? ==> r == Proceed(env)
    ensures r.Proceed? ==> forall k :: k in env ==> k in r.env && r.env[k] == env[k]
  {
    reentryAfter := true;
    if reentry {
      return reentryAfter, Reentered;
    }
    if !hasRealMain {
      return reentryAfter, MissingRealMain;
    }
    if envp.None? {
      return reentryAfter, Proceed(env);
    }
    var imported := ImportEnvironment(env, envp.value);
    r := Proceed(imported);
  }

  // ---------------------------------------------------------------------------
  // Instrumentation mode and default mode
  // ---------------------------------------------------------------------------

  /** `InstrumentMode` values: None = -1 up to PythonProfile = 3, Last = 4. */
  const InstrumentNone: int := -1
  const InstrumentLast: int := 4

  /**
    `rocprofsys_set_instrumented(mode)`: the mode is stored whatever its
    value; one outside [None, Last) only produces a log message. Returns
    the stored mode and whether the message was logged.
   */
  function SetInstrumented(mode: int): (r: (int, bool))
    ensures r.0 == mode
    ensures r.1 <==> mode < InstrumentNone || mode >= InstrumentLast
  {
    (mode, mode < InstrumentNone || mode >= InstrumentLast)
  }

  /** `InstrumentMode::PythonProfile`. */
  const InstrumentPythonProfile: int := 3

  /**
    What `rocprofsys_init` does with the stored mode: whether it calls
    `rocprofsys_preinit` (before the forwarded call) and
    `rocprofsys_postinit` (after it, when it ran), and whether their
    switches reach a case that does work: the MPI set-up and the tooling
    initialisation belong to the modes None to ProcessAttach. This is the
    part of an init that got past the guard of `DlInit`; an init the guard
    turns away calls neither hook.
   */
  datatype InitHooks = InitHooks(preinitCalled: bool, preinitWork: bool, postinitCalled: bool, toolingInit: bool)

  function InitHooksFor(mode: int, invoked: bool): (r: InitHooks)
    ensures r.preinitCalled <==> mode < InstrumentPythonProfile
    ensures r.postinitCalled <==> invoked && mode < InstrumentPythonProfile
    ensures r.preinitWork ==> r.preinitCalled
    ensures r.toolingInit ==> r.postinitCalled
  {
    var called := mode < InstrumentPythonProfile;
    var known := InstrumentNone <= mode;
    InitHooks(called, called && known, invoked && called, invoked && called && known)
  }

  /**
    The mode `rocprofsys_set_instrumented` stores steers the next init that
    gets past the guard of `DlInit`: the
    tooling is initialised exactly for an accepted mode below PythonProfile
    whose forwarded init ran; a rejected mode below None is still stored,
    so the hooks are called but do nothing; PythonProfile and above skip
    the hooks altogether.
   */
  lemma InstrumentedModeSteersInit(mode: int, invoked: bool)
    ensures var (stored, rejected) := SetInstrumented(mode);
            var h := InitHooksFor(stored, invoked);
            (h.toolingInit <==> invoked && !rejected && mode < InstrumentPythonProfile) &&
            (h.preinitWork <==> !rejected && mode < InstrumentPythonProfile) &&
            (rejected && mode < InstrumentNone ==> h.preinitCalled && !h.preinitWork && !h.toolingInit) &&
            (mode >= InstrumentPythonProfile ==> !h.preinitCalled && !h.postinitCalled)
  {
  }

  const RuntimeLibrary: string := "librocprof-sys-rt.so"
  const DyninstRuntimeLibrary: string := "libdyninstAPI_RT.so"

  predicate IsInstrumentationRuntime(lib: string) {
    Contains(lib, RuntimeLibrary) || Contains(lib, DyninstRuntimeLibrary)
  }

  /**
    `get_default_mode`: "causal" when causal profiling is requested, else
    "trace" when a linked library is an instrumentation runtime, else
    "sampling".
   */
  function DefaultMode(useCausal: bool, linkMap: seq<string>): (r: string)
    ensures r == "causal" <==> useCausal
    ensures r == "trace" <==> !useCausal && exists i :: 0 <= i < |linkMap| && IsInstrumentationRuntime(linkMap[i])
    ensures r == "causal" || r == "trace" || r == "sampling"
  {
    if useCausal then "causal"
    else if FirstRuntime(linkMap).Some? then "trace"
    else "sampling"
  }

  /** The scan over the link map: the first instrumentation runtime, if any. */
  function FirstRuntime(linkMap: seq<string>): (r: Option<nat>)
    ensures r.Some? ==> r.value < |linkMap| && IsInstrumentationRuntime(linkMap[r.value])
    ensures r.None? ==> forall i :: 0 <= i < |linkMap| ==> !IsInstrumentationRuntime(linkMap[i])
    decreases |linkMap|
  {
    if |linkMap| == 0 then None
    else if IsInstrumentationRuntime(linkMap[0]) then Some(0)
    else match FirstRuntime(linkMap[1..])
      case None => None
      case Some(k) => Some(k + 1)
  }
}
