/**
  DWARF line-table entries and address ranges (binary/dwarf_entry.cpp):
  the ordering, equality and validity of `dwarf_entry`, and the decisions
  that turn what libdw reports for one debugging information entry into
  address ranges (section 2.17 of the DWARF 5 standard, "Code Addresses,
  Ranges and Base Addresses"), breakpoints and line-table rows (section
  6.2, "Line Number Information").

  The libdw calls are not modelled: the values they report are inputs.
  An `address_range` built from a single address is modelled by that
  address.
 */
module Dwarf {

  import opened Common

  /** The tag of a debugging information entry, as far as these functions distinguish it. */
  datatype Tag = CompileUnit | Subprogram | OtherTag(code: nat)

  /** `dwarf_entry`: one row of the line table. */
  datatype DwarfEntry = DwarfEntry(
    address: nat,
    file: string,
    line: nat,
    col: int,
    discriminator: nat,
    vliwOpIndex: nat,
    isa: nat,
    beginStatement: bool,
    endSequence: bool,
    lineBlock: bool,
    epilogueBegin: bool,
    prologueEnd: bool)

  /** A value-initialized `dwarf_entry{}`. */
  const DefaultEntry: DwarfEntry := DwarfEntry(0, "", 0, 0, 0, 0, 0, false, false, false, false, false)

  // ---------------------------------------------------------------------------
  // Ordering and equality
  // ---------------------------------------------------------------------------

  /** `std::string::operator<`: lexicographic by character, a proper prefix first. */
  predicate StringLess(a: string, b: string)
    decreases |a|
  {
    if |a| == 0 then |b| > 0
    else if |b| == 0 then false
    else if a[0] != b[0] then a[0] < b[0]
    else StringLess(a[1..], b[1..])
  }

  /** The string order is a strict total order. */
  lemma {:induction false} StringLessOrder(a: string, b: string, c: string)
    ensures !StringLess(a, a)
    ensures StringLess(a, b) && StringLess(b, c) ==> StringLess(a, c)
    ensures a == b || StringLess(a, b) || StringLess(b, a)
    ensures StringLess(a, b) ==> !StringLess(b, a)
    decreases |a|
  {
    if |a| > 0 && |b| > 0 && |c| > 0 {
      StringLessOrder(a[1..], b[1..], c[1..]);
      if a[0] == b[0] && a[1..] == b[1..] {
        assert a == [a[0]] + a[1..] && b == [b[0]] + b[1..];
      }
    } else if |a| > 0 && |b| > 0 {
      StringLessOrder(a[1..], b[1..], b[1..]);
      if a[0] == b[0] && a[1..] == b[1..] {
        assert a == [a[0]] + a[1..] && b == [b[0]] + b[1..];
      }
    } else if |a| > 0 {
      StringLessOrder(a[1..], a[1..], a[1..]);
    }
  }

  /** `dwarf_entry::operator<`: lexicographic over address, file, line, column, discriminator. */
  function Less(a: DwarfEntry, b: DwarfEntry): (r: bool)
    ensures r ==> NotEq(a, b)
  {
    if a.address != b.address then a.address < b.address
    else if a.file != b.file then StringLess(a.file, b.file)
    else if a.line != b.line then a.line < b.line
    else if a.col != b.col then a.col < b.col
    else a.discriminator < b.discriminator
  }

  /**
    `dwarf_entry::operator==`: address, line, column, discriminator, VLIW
    index, ISA and file. Entries are equal exactly when they differ at most
    in the five line-table flags.
   */
  function Eq(a: DwarfEntry, b: DwarfEntry): (r: bool)
    ensures r <==> b.(beginStatement := a.beginStatement, endSequence := a.endSequence, lineBlock := a.lineBlock,
                      epilogueBegin := a.epilogueBegin, prologueEnd := a.prologueEnd) == a
  {
    (a.address, a.line, a.col, a.discriminator, a.vliwOpIndex, a.isa, a.file) ==
    (b.address, b.line, b.col, b.discriminator, b.vliwOpIndex, b.isa, b.file)
  }

  /** `dwarf_entry::operator!=`. */
  function NotEq(a: DwarfEntry, b: DwarfEntry): (r: bool)
    ensures r ==> a != b
  {
    !Eq(a, b)
  }

  /** `operator<` is a strict weak order, and equal entries are not ordered. */
  lemma LessIsStrictOrder(a: DwarfEntry, b: DwarfEntry, c: DwarfEntry)
    ensures !Less(a, a)
    ensures Less(a, b) ==> !Less(b, a)
    ensures Less(a, b) && Less(b, c) ==> Less(a, c)
    ensures Eq(a, b) ==> !Less(a, b) && !Less(b, a)
  {
    StringLessOrder(a.file, b.file, c.file);
    StringLessOrder(b.file, a.file, c.file);
    StringLessOrder(a.file, a.file, a.file);
  }

  /**
    The order ignores the ISA and VLIW operation index that equality looks
    at: entries differing only there are unequal, yet neither is less than
    the other.
   */
  lemma OrderIgnoresIsa(a: DwarfEntry, isa: nat, vliw: nat)
    requires isa != a.isa || vliw != a.vliwOpIndex
    ensures var b := a.(isa := isa, vliwOpIndex := vliw);
            NotEq(a, b) && !Less(a, b) && !Less(b, a)
  {
    StringLessOrder(a.file, a.file, a.file);
  }

  /** `dwarf_entry::is_valid`: different from a default entry, with a file name. */
  function IsValid(e: DwarfEntry): (r: bool)
    ensures r <==> |e.file| > 0
  {
    NotEq(e, DefaultEntry) && |e.file| > 0
  }

  /** Since the default entry has no file name, an entry is valid exactly when it has one. */
  lemma IsValidIffFile(e: DwarfEntry)
    ensures IsValid(e) <==> |e.file| > 0
  {
  }

  // ---------------------------------------------------------------------------
  // Address ranges
  // ---------------------------------------------------------------------------

  /** A half-open address range `[low, high)`. */
  datatype AddressRange = AddressRange(low: nat, high: nat)

  /**
    The low end of the contiguous range: when the reported low pc lies
    above the high pc, the entry pc replaces it if it is smaller.
   */
  function NormalisedLow(low: nat, high: nat, entry: nat): (r: nat)
    ensures r <= low
    ensures r != low ==> low > high && r == entry
  {
    if low > high && entry < low then entry else low
  }

  /** The ranges `dwarf_ranges` reported, keeping only non-empty ones, in order. */
  function NonEmpty(listed: seq<(nat, nat)>): (r: seq<AddressRange>)
    ensures |r| <= |listed|
    ensures forall i :: 0 <= i < |r| ==> r[i].low < r[i].high
    decreases |listed|
  {
    if |listed| == 0 then []
    else (if listed[0].0 < listed[0].1 then [AddressRange(listed[0].0, listed[0].1)] else [])
         + NonEmpty(listed[1..])
  }

  /** Exactly the non-empty reported pairs survive. */
  lemma {:induction false} NonEmptyKeepsExactly(listed: seq<(nat, nat)>, lo: nat, hi: nat)
    ensures AddressRange(lo, hi) in NonEmpty(listed) <==> (lo, hi) in listed && lo < hi
    decreases |listed|
  {
    if |listed| > 0 {
      NonEmptyKeepsExactly(listed[1..], lo, hi);
      assert listed == [listed[0]] + listed[1..];
    }
  }

  /**
    `get_dwarf_address_ranges`: nothing for a DIE that is neither a
    compile unit nor a subprogram; otherwise the normalised contiguous
    range when it is non-empty, followed by the non-empty ranges from the
    DIE's range list. `listed` holds the (low, high) pair each call to
    `dwarf_ranges` left behind.
   */
  function AddressRanges(tag: Tag, lowPc: nat, highPc: nat, entryPc: nat, listed: seq<(nat, nat)>): (r: seq<AddressRange>)
    ensures !(tag.CompileUnit? || tag.Subprogram?) ==> r == []
    ensures forall i :: 0 <= i < |r| ==> r[i].low < r[i].high
    ensures |r| <= 1 + |listed|
    ensures (tag.CompileUnit? || tag.Subprogram?) && NormalisedLow(lowPc, highPc, entryPc) < highPc ==>
              |r| > 0 && r[0] == AddressRange(NormalisedLow(lowPc, highPc, entryPc), highPc)
    ensures (tag.CompileUnit? || tag.Subprogram?) ==>
              forall lo, hi :: (lo, hi) in listed && lo < hi ==> AddressRange(lo, hi) in r
    ensures forall x :: x in r ==>
              x == AddressRange(NormalisedLow(lowPc, highPc, entryPc), highPc) || (x.low, x.high) in listed
  {
    if !(tag.CompileUnit? || tag.Subprogram?) then []
    else
      var low := NormalisedLow(lowPc, highPc, entryPc);
      var head := if low < highPc then [AddressRange(low, highPc)] else [];
      var r := head + NonEmpty(listed);
      assert forall lo, hi :: (lo, hi) in listed && lo < hi ==> AddressRange(lo, hi) in r by {
        forall lo, hi | (lo, hi) in listed && lo < hi
          ensures AddressRange(lo, hi) in r
        {
          NonEmptyKeepsExactly(listed, lo, hi);
        }
      }
      assert forall x :: x in r ==> x == AddressRange(low, highPc) || (x.low, x.high) in listed by {
        forall x | x in r && x != AddressRange(low, highPc)
          ensures (x.low, x.high) in listed
        {
          assert x in NonEmpty(listed);
          NonEmptyKeepsExactly(listed, x.low, x.high);
        }
      }
      r
  }

  /**
    For a compile unit or subprogram whose low pc lies above its high pc
    while the entry pc does not, the contiguous range is repaired to start
    at the entry pc; one whose low pc is not above the high pc keeps it.
   */
  lemma ContiguousRangeRepair(tag: Tag, lowPc: nat, highPc: nat, entryPc: nat, listed: seq<(nat, nat)>)
    requires tag.CompileUnit? || tag.Subprogram?
    ensures lowPc > highPc && entryPc < highPc ==>
              AddressRanges(tag, lowPc, highPc, entryPc, listed)[0] == AddressRange(entryPc, highPc)
    ensures lowPc < highPc ==> AddressRanges(tag, lowPc, highPc, entryPc, listed)[0] == AddressRange(lowPc, highPc)
    ensures lowPc > highPc && entryPc >= highPc ==>
              AddressRanges(tag, lowPc, highPc, entryPc, listed) == NonEmpty(listed)
  {
  }

  // ---------------------------------------------------------------------------
  // Breakpoints
  // ---------------------------------------------------------------------------

  /**
    `get_dwarf_breakpoints`: for a subprogram, the `count` addresses libdw
    reports when the count is positive and the array non-null; nothing
    otherwise.
   */
  function Breakpoints(tag: Tag, count: int, points: Option<seq<nat>>): (r: seq<nat>)
    requires count > 0 && points.Some? ==> count <= |points.value|
    ensures |r| > 0 ==> tag.Subprogram? && count > 0 && points.Some?
    ensures tag.Subprogram? && count > 0 && points.Some? ==> r == points.value[..count]
  {
    if tag.Subprogram? && count > 0 && points.Some? then points.value[..count] else []
  }

  /**
    The breakpoints are the reported addresses themselves: an address is a
    breakpoint exactly when the DIE is a subprogram, the count is positive,
    the array is non-null and the address is among its first `count`
    entries; there are `count` of them, or none.
   */
  lemma BreakpointsAreReported(tag: Tag, count: int, points: Option<seq<nat>>, a: nat)
    requires count > 0 && points.Some? ==> count <= |points.value|
    ensures var r := Breakpoints(tag, count, points);
            |r| == (if tag.Subprogram? && count > 0 && points.Some? then count else 0) &&
            (a in r <==> tag.Subprogram? && count > 0 && points.Some? &&
                         exists i :: 0 <= i < count && points.value[i] == a)
  {
    var r := Breakpoints(tag, count, points);
    if a in r {
      var i :| 0 <= i < |r| && r[i] == a;
      assert points.value[i] == a;
    }
  }

  // ---------------------------------------------------------------------------
  // Line-table rows
  // ---------------------------------------------------------------------------

  /** What libdw reports for one row of the line table. */
  datatype LineRow = LineRow(
    lineno: int,
    col: int,
    beginStatement: bool,
    endSequence: bool,
    lineBlock: bool,
    epilogueBegin: bool,
    prologueEnd: bool,
    isa: nat,
    discriminator: nat,
    address: nat,
    source: Option<string>)

  /**
    One row as `get_dwarf_entry` stores it: the line only when positive;
    the file is the resolved path of the row's source file, or of the DIE's
    name when the row has none. `resolve` stands for `realpath`.
   */
  function EntryOf(row: LineRow, dieName: string, resolve: string -> string): (e: DwarfEntry)
    ensures e.line > 0 ==> e.line == row.lineno
    ensures row.lineno > 0 ==> e.line == row.lineno
    ensures e.file == resolve(if row.source.Some? then row.source.value else dieName)
    ensures e.address == row.address && e.vliwOpIndex == 0
  {
    DwarfEntry(
      row.address,
      resolve(if row.source.Some? then row.source.value else dieName),
      if row.lineno > 0 then row.lineno else 0,
      row.col, row.discriminator, 0, row.isa,
      row.beginStatement, row.endSequence, row.lineBlock, row.epilogueBegin, row.prologueEnd)
  }

  /**
    `get_dwarf_entry`: nothing unless the DIE is a compile unit whose line
    table could be read; then one entry per row, a default entry for a row
    libdw could not return.
   */
  function LineEntries(tag: Tag, linesRead: bool, rows: seq<Option<LineRow>>, dieName: string,
                       resolve: string -> string): (r: seq<DwarfEntry>)
    ensures !(tag.CompileUnit? && linesRead) ==> r == []
    ensures tag.CompileUnit? && linesRead ==> |r| == |rows|
    ensures tag.CompileUnit? && linesRead ==> forall j :: 0 <= j < |rows| ==>
              r[j] == if rows[j].Some? then EntryOf(rows[j].value, dieName, resolve) else DefaultEntry
  {
    if !(tag.CompileUnit? && linesRead) then []
    else seq(|rows|, j requires 0 <= j < |rows| =>
               if rows[j].Some? then EntryOf(rows[j].value, dieName, resolve) else DefaultEntry)
  }

  /**
    The rows that survive a validity filter are exactly those libdw
    returned and whose resolved file name is not empty; a missing row never
    does.
   */
  lemma ValidRows(rows: seq<Option<LineRow>>, dieName: string, resolve: string -> string)
    ensures var r := LineEntries(CompileUnit, true, rows, dieName, resolve);
            forall j :: 0 <= j < |rows| ==>
              (IsValid(r[j]) <==>
                 (rows[j].Some? &&
                  |resolve(if rows[j].value.source.Some? then rows[j].value.source.value else dieName)| > 0))
  {
  }
}
