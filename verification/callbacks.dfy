/**
  The user API's callback table (omnitrace-user/user.cpp): ten function
  pointer slots, the call wrapper that turns a slot into an error code,
  the three ways `rocprofsys_user_configure` merges a new table into the
  current one, and the error-code descriptions.

  A function pointer is modelled by an opaque identity (`Fn`); two slots
  hold "the same pointer" exactly when their identities are equal, and a
  null pointer is `None`.
 */
module UserCallbacks {

  import opened Common

  /** The identity of a bound function. */
  type Fn = nat

  /** The ten slots of `rocprofsys_user_callbacks_t`, in declaration order. */
  datatype Slot =
    | StartTrace | StopTrace
    | StartThreadTrace | StopThreadTrace
    | PushRegion | PopRegion | Progress
    | PushAnnotatedRegion | PopAnnotatedRegion | AnnotatedProgress

  const SlotCount: nat := 10

  function SlotIndex(s: Slot): (r: nat)
    ensures r < SlotCount
  {
    match s
      case StartTrace => 0
      case StopTrace => 1
      case StartThreadTrace => 2
      case StopThreadTrace => 3
      case PushRegion => 4
      case PopRegion => 5
      case Progress => 6
      case PushAnnotatedRegion => 7
      case PopAnnotatedRegion => 8
      case AnnotatedProgress => 9
  }

  /** Each slot has its own field of the struct. */
  lemma SlotIndexInjective(a: Slot, b: Slot)
    ensures SlotIndex(a) == SlotIndex(b) <==> a == b
  {
  }

  /** A callback table: one optional function per slot. */
  type Table = t: seq<Option<Fn>> | |t| == SlotCount witness [None, None, None, None, None, None, None, None, None, None]

  /** `ROCPROFSYS_USER_CALLBACKS_INIT`: every slot null. */
  const EmptyTable: Table := [None, None, None, None, None, None, None, None, None, None]

  /** `rocprofsys_user_error_t`, with any other integer kept as it is. */
  datatype ErrorCode =
    | Success
    | NoBinding
    | BadValue
    | InvalidCategory
    | Internal
    | Unrecognised(code: int)

  /**
    The call wrapper `invoke`: a null slot reports `NoBinding`; a bound
    function is called, and a non-zero return reports `Internal`. `call`
    gives what a bound function returns.
   */
  function Invoke(t: Table, s: Slot, call: Fn -> int): (r: ErrorCode)
    ensures r == NoBinding <==> t[SlotIndex(s)].None?
    ensures r == Internal <==> t[SlotIndex(s)].Some? && call(t[SlotIndex(s)].value) != 0
    ensures r == Success <==> t[SlotIndex(s)].Some? && call(t[SlotIndex(s)].value) == 0
  {
    match t[SlotIndex(s)]
      case None => NoBinding
      case Some(f) => if call(f) != 0 then Internal else Success
  }

  /** `rocprofsys_user_configure_mode_t`, with any other value kept as it is. */
  datatype ConfigureMode = Replace | Union | Intersect | UnknownMode(code: int)

  /** Union: a bound slot of the input overrides, a null one keeps the current slot. */
  function UnionTables(cur: Table, inp: Table): (r: Table)
    ensures forall i :: 0 <= i < SlotCount ==> r[i] == (if inp[i].Some? then inp[i] else cur[i])
  {
    seq(SlotCount, i requires 0 <= i < SlotCount => if inp[i].Some? then inp[i] else cur[i])
  }

  /** Intersection: a slot survives only where both tables hold the same pointer. */
  function IntersectTables(cur: Table, inp: Table): (r: Table)
    ensures forall i :: 0 <= i < SlotCount ==> r[i] == (if cur[i] == inp[i] then cur[i] else None)
  {
    seq(SlotCount, i requires 0 <= i < SlotCount => if cur[i] == inp[i] then cur[i] else None)
  }

  /**
    The result of `rocprofsys_user_configure`: the new table, the returned
    code, and the table written through `out` (when `out` is non-null).
   */
  datatype Configured = Configured(table: Table, code: ErrorCode, former: Table)

  /**
    `rocprofsys_user_configure`: an unknown mode leaves the table alone and
    reports `InvalidCategory`; every mode hands back the former table.
   */
  function Configure(cur: Table, mode: ConfigureMode, inp: Table): (r: Configured)
    ensures r.former == cur
    ensures r.code == Success <==> !mode.UnknownMode?
    ensures mode.UnknownMode? ==> r.table == cur && r.code == InvalidCategory
    ensures mode.Replace? ==> r.table == inp
    ensures mode.Union? ==> forall i :: 0 <= i < SlotCount ==>
              (inp[i].Some? ==> r.table[i] == inp[i]) && (inp[i].None? ==> r.table[i] == cur[i])
    ensures mode.Intersect? ==> forall i :: 0 <= i < SlotCount ==>
              (r.table[i].Some? <==> cur[i].Some? && cur[i] == inp[i]) &&
              (r.table[i].Some? ==> r.table[i] == cur[i])
  {
    match mode
      case Replace => Configured(inp, Success, cur)
      case Union => Configured(UnionTables(cur, inp), Success, cur)
      case Intersect => Configured(IntersectTables(cur, inp), Success, cur)
      case UnknownMode(_) => Configured(cur, InvalidCategory, cur)
  }

  /**
    The pattern of the user-API example: configure anything, then replace
    with the table handed back, and the original callbacks are in place
    again.
   */
  lemma ReplaceWithFormerRestores(cur: Table, mode: ConfigureMode, inp: Table)
    ensures var first := Configure(cur, mode, inp);
            Configure(first.table, Replace, first.former).table == cur
  {
  }

  /** Merging the same table twice by union changes nothing the second time. */
  lemma UnionIdempotent(cur: Table, inp: Table)
    ensures UnionTables(UnionTables(cur, inp), inp) == UnionTables(cur, inp)
  {
  }

  /** A union with an empty table, or a table with itself, is the identity. */
  lemma UnionIdentities(cur: Table)
    ensures UnionTables(cur, EmptyTable) == cur
    ensures UnionTables(cur, cur) == cur
  {
  }

  /** A union leaves no slot null that either table had bound. */
  lemma UnionKeepsBindings(cur: Table, inp: Table)
    ensures forall i :: 0 <= i < SlotCount ==>
              (UnionTables(cur, inp)[i].None? <==> cur[i].None? && inp[i].None?)
  {
  }

  /** Intersection is symmetric and idempotent, and never binds a new pointer. */
  lemma IntersectProperties(cur: Table, inp: Table)
    ensures IntersectTables(cur, inp) == IntersectTables(inp, cur)
    ensures IntersectTables(cur, cur) == cur
    ensures IntersectTables(IntersectTables(cur, inp), inp) == IntersectTables(cur, inp)
    ensures forall i :: 0 <= i < SlotCount && IntersectTables(cur, inp)[i].Some? ==>
              IntersectTables(cur, inp)[i] == cur[i] && IntersectTables(cur, inp)[i] == inp[i]
  {
  }

  /** Intersecting with an empty table unbinds every slot. */
  lemma IntersectWithEmpty(cur: Table)
    ensures IntersectTables(cur, EmptyTable) == EmptyTable
  {
  }

  /** `rocprofsys_user_error_string`: "No error" for any code it does not know. */
  function ErrorString(e: ErrorCode): (r: string)
    ensures e.Unrecognised? <==> r == "No error"
    ensures |r| > 0
  {
    match e
      case Success => "Success"
      case NoBinding => "Function pointer not assigned"
      case BadValue => "Invalid value was provided"
      case InvalidCategory => "Invalid user binding category"
      case Internal => "An unknown error occurred within rocprof-sys library"
      case Unrecognised(_) => "No error"
  }

  /** Known codes have distinct descriptions, so a description names its code. */
  lemma ErrorStringsDistinct(a: ErrorCode, b: ErrorCode)
    requires !a.Unrecognised? && !b.Unrecognised?
    ensures ErrorString(a) == ErrorString(b) <==> a == b
  {
  }
}
