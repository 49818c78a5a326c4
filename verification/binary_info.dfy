/**
  The per-binary debug information record (binary/binary_info.hpp):
  sorting its lists, finding the section that holds an address, and its
  file name.

  The element types of the memory mappings and symbols, the
  `filter_sort_unique` normalisation and `address_range::contains` are
  not part of this model: they are type and function parameters. The
  sections, an unordered map in the source, are a sequence in the map's
  iteration order.
 */
module BinaryInfo {

  import opened Common
  import Dwarf

  /** The identity of the data a section maps to. */
  type SectionData = nat

  /** `binary_info`, with the bfd handle reduced to its file name (`None` when there is no bfd). */
  datatype Info<Mapping, Symbol> = Info(
    bfdName: Option<string>,
    mappings: seq<Mapping>,
    symbols: seq<Symbol>,
    debugInfo: seq<Dwarf.DwarfEntry>,
    ranges: seq<Dwarf.AddressRange>,
    breakpoints: seq<nat>,
    sections: seq<(Dwarf.AddressRange, SectionData)>)

  /** One `filter_sort_unique` per list kind. */
  datatype Normalisers<!Mapping, !Symbol> = Normalisers(
    mappings: seq<Mapping> -> seq<Mapping>,
    symbols: seq<Symbol> -> seq<Symbol>,
    debugInfo: seq<Dwarf.DwarfEntry> -> seq<Dwarf.DwarfEntry>,
    ranges: seq<Dwarf.AddressRange> -> seq<Dwarf.AddressRange>,
    breakpoints: seq<nat> -> seq<nat>)

  /**
    `binary_info::sort`: normalise the five lists; the bfd and the sections
    are left as they are.
   */
  function Sort<M, S>(b: Info<M, S>, n: Normalisers<M, S>): (r: Info<M, S>)
    ensures r.bfdName == b.bfdName && r.sections == b.sections
    ensures r.mappings == n.mappings(b.mappings) && r.symbols == n.symbols(b.symbols)
    ensures r.debugInfo == n.debugInfo(b.debugInfo) && r.ranges == n.ranges(b.ranges)
    ensures r.breakpoints == n.breakpoints(b.breakpoints)
  {
    b.(mappings := n.mappings(b.mappings),
       symbols := n.symbols(b.symbols),
       debugInfo := n.debugInfo(b.debugInfo),
       ranges := n.ranges(b.ranges),
       breakpoints := n.breakpoints(b.breakpoints))
  }

  /** Sorting twice is sorting once, whenever each normalisation is idempotent. */
  lemma SortIdempotent<M, S>(b: Info<M, S>, n: Normalisers<M, S>)
    requires forall x :: n.mappings(n.mappings(x)) == n.mappings(x)
    requires forall x :: n.symbols(n.symbols(x)) == n.symbols(x)
    requires forall x :: n.debugInfo(n.debugInfo(x)) == n.debugInfo(x)
    requires forall x :: n.ranges(n.ranges(x)) == n.ranges(x)
    requires forall x :: n.breakpoints(n.breakpoints(x)) == n.breakpoints(x)
    ensures Sort(Sort(b, n), n) == Sort(b, n)
  {
  }

  /**
    `binary_info::find_section`: the data of the first section (in
    iteration order) whose range contains the address, or `None`.
   */
  function FindSection(sections: seq<(Dwarf.AddressRange, SectionData)>, addr: nat,
                       contains: (Dwarf.AddressRange, nat) -> bool): (r: Option<SectionData>)
    ensures r.None? <==> forall i :: 0 <= i < |sections| ==> !contains(sections[i].0, addr)
    ensures r.Some? ==> exists i :: 0 <= i < |sections| && contains(sections[i].0, addr) &&
                                    sections[i].1 == r.value &&
                                    forall j :: 0 <= j < i ==> !contains(sections[j].0, addr)
    decreases |sections|
  {
    if |sections| == 0 then None
    else if contains(sections[0].0, addr) then Some(sections[0].1)
    else
      var rest := FindSection(sections[1..], addr, contains);
      assert forall i :: 1 <= i < |sections| ==> sections[i] == sections[1..][i - 1];
      rest
  }

  /**
    When exactly one section contains the address, the lookup finds that
    section, whatever order the map iterates in.
   */
  lemma FindSectionUnique(sections: seq<(Dwarf.AddressRange, SectionData)>, addr: nat,
                          contains: (Dwarf.AddressRange, nat) -> bool, k: nat)
    requires k < |sections| && contains(sections[k].0, addr)
    requires forall i :: 0 <= i < |sections| && i != k ==> !contains(sections[i].0, addr)
    ensures FindSection(sections, addr, contains) == Some(sections[k].1)
  {
  }

  /**
    Sorting does not change what the record answers about sections and its
    file: the section found for any address, and the file name, are the
    same before and after.
   */
  lemma SortKeepsLookups<M, S>(b: Info<M, S>, n: Normalisers<M, S>, addr: nat,
                               contains: (Dwarf.AddressRange, nat) -> bool)
    ensures FindSection(Sort(b, n).sections, addr, contains) == FindSection(b.sections, addr, contains)
    ensures Filename(Sort(b, n)) == Filename(b)
  {
  }

  /** `binary_info::filename`: the bfd's name, or the empty string without a bfd. */
  function Filename<M, S>(b: Info<M, S>): (r: string)
    ensures b.bfdName.None? ==> r == ""
    ensures b.bfdName.Some? ==> r == b.bfdName.value
  {
    if b.bfdName.Some? then b.bfdName.value else ""
  }
}
