/**
  The hidden region entry points of the main library
  (rocprof-sys/regions.cpp): the trace and region entry points, which always
  use the host and user categories, and the categorized entry points, which
  look the category up among the known ones and start or stop a region of
  that category with the caller's annotations.

  Whether each category is enabled at run time and whether perfetto
  annotations are enabled are inputs; the region started or stopped is
  the result.
 */
module Regions {

  import opened Common

  /** `ROCPROFSYS_CATEGORY_NONE`, `_USER`, `_HOST` and `_LAST` of `rocprofsys_category_t`. */
  const CategoryNone: int := 0
  const CategoryUser: int := 2
  const CategoryHost: int := 3
  const CategoryLast: int := 43

  datatype Phase = Start | Stop

  /** The identity of one `rocprofsys_annotation_t` entry. */
  type Annotation = nat

  /** A region started or stopped in a category, with the annotations attached to it. */
  datatype RegionCall = RegionCall(category: int, phase: Phase, name: string, annotations: seq<Annotation>)

  /** `rocprofsys_push_trace_hidden` / `rocprofsys_pop_trace_hidden`: always the host category. */
  function TraceHidden(phase: Phase, name: string): (r: RegionCall)
    ensures r.category == CategoryHost && r.phase == phase && r.name == name && r.annotations == []
  {
    RegionCall(CategoryHost, phase, name, [])
  }

  /** `rocprofsys_push_region_hidden` / `rocprofsys_pop_region_hidden`: always the user category. */
  function RegionHidden(phase: Phase, name: string): (r: RegionCall)
    ensures r.category == CategoryUser && r.phase == phase && r.name == name && r.annotations == []
  {
    RegionCall(CategoryUser, phase, name, [])
  }

  /**
    The annotations attached to the region: the first `count` entries of the
    caller's array, in order, when the array is non-null and perfetto
    annotations are on; none otherwise.
   */
  function Forwarded(annotations: Option<seq<Annotation>>, count: nat, perfettoAnnotations: bool): (r: seq<Annotation>)
    requires annotations.Some? ==> count <= |annotations.value|
    ensures annotations.None? || !perfettoAnnotations ==> r == []
    ensures annotations.Some? && perfettoAnnotations ==>
              |r| == count && forall i :: 0 <= i < count ==> r[i] == annotations.value[i]
  {
    if annotations.Some? && perfettoAnnotations then annotations.value[..count] else []
  }

  /**
    `invoke_category_region_start` / `_stop` over the index sequence from
    `idx` to `CategoryLast - 1`: the first index equal to the category
    decides; a disabled category does nothing; no match does nothing.
   */
  function Dispatch(category: int, idx: int, phase: Phase, name: string, annotations: seq<Annotation>,
                    enabled: int -> bool): (r: Option<RegionCall>)
    requires CategoryNone < idx < CategoryLast
    ensures r.Some? ==> idx <= category < CategoryLast && enabled(category) &&
                        r.value == RegionCall(category, phase, name, annotations)
    decreases CategoryLast - idx
  {
    if category == idx then
      (if !enabled(idx) then None else Some(RegionCall(idx, phase, name, annotations)))
    else if idx + 1 < CategoryLast then Dispatch(category, idx + 1, phase, name, annotations, enabled)
    else None
  }

  /**
    Scanning from `idx` finds exactly the categories from `idx` up to (not
    including) `CategoryLast`, and starts or stops a region only when that
    category is enabled.
   */
  lemma {:induction false} DispatchFinds(category: int, idx: int, phase: Phase, name: string,
                                         annotations: seq<Annotation>, enabled: int -> bool)
    requires CategoryNone < idx < CategoryLast
    ensures Dispatch(category, idx, phase, name, annotations, enabled) ==
            if idx <= category < CategoryLast && enabled(category)
            then Some(RegionCall(category, phase, name, annotations)) else None
    decreases CategoryLast - idx
  {
    if category != idx && idx + 1 < CategoryLast {
      DispatchFinds(category, idx + 1, phase, name, annotations, enabled);
    }
  }

  /**
    `rocprofsys_push_category_region_hidden` / `..._pop_...`: a region is
    started or stopped exactly when the category is a real one (strictly
    between NONE and LAST) and enabled, with that category and the
    forwarded annotations. `NONE`, `LAST` and any other value are ignored.
   */
  function CategoryRegionHidden(category: int, phase: Phase, name: string,
                                annotations: Option<seq<Annotation>>, count: nat,
                                perfettoAnnotations: bool, enabled: int -> bool): (r: Option<RegionCall>)
    requires annotations.Some? ==> count <= |annotations.value|
    ensures r.Some? <==> CategoryNone < category < CategoryLast && enabled(category)
    ensures r.Some? ==> r.value == RegionCall(category, phase, name, Forwarded(annotations, count, perfettoAnnotations))
  {
    var fwd := Forwarded(annotations, count, perfettoAnnotations);
    DispatchFinds(category, 1, phase, name, fwd, enabled);
    Dispatch(category, 1, phase, name, fwd, enabled)
  }

  /**
    A push and a pop with the same category reach the same category and
    name, so an enabled category's region is always closed where it was
    opened.
   */
  lemma PushPopPair(category: int, name: string, perfettoAnnotations: bool, enabled: int -> bool)
    ensures var push := CategoryRegionHidden(category, Start, name, None, 0, perfettoAnnotations, enabled);
            var pop := CategoryRegionHidden(category, Stop, name, None, 0, perfettoAnnotations, enabled);
            push.Some? == pop.Some? &&
            (push.Some? ==> push.value.(phase := Stop) == pop.value)
  {
  }
}
