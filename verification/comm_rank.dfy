/**
  How the MPI wrappers work out this process's rank and size
  (omnitrace/library/components/mpi_gotcha.cpp): the per-communicator
  records, their ordering, the choice of the record to publish, the
  max-merge performed when `MPI_Comm_rank` / `MPI_Comm_size` return, and
  the fallback record built from the process tree when `MPI_Init` returns.

  Communicator handles are natural numbers, with `NullComm` standing for
  `mpi_gotcha::null_comm()`. The ordered `std::map` of records is a
  sequence of (handle, record) pairs in key order.
 */
module CommRank {

  import opened Common

  const NullComm: nat := 0

  /** `comm_rank_data`. */
  datatype Record = Record(rank: int, size: int, comm: nat)

  const DefaultRecord: Record := Record(-1, -1, NullComm)

  /** `updated()`: a real communicator, a rank and a positive size are known. */
  function Updated(rec: Record): (r: bool)
    ensures r ==> rec != DefaultRecord
  {
    rec.comm != NullComm && rec.rank >= 0 && rec.size > 0
  }

  /** `operator==`: compares the updated flag, the rank, the size and the communicator. */
  function Eq(a: Record, b: Record): (r: bool)
    ensures r <==> a == b
  {
    (Updated(a), a.rank, a.size, a.comm) == (Updated(b), b.rank, b.size, b.comm)
  }

  /**
    `operator>`: an updated record beats one that is not; then the larger
    size, then the larger rank, then the smaller communicator handle wins.
    The check that throws when neither side is updated (in CI builds only)
    is not part of this function.
   */
  function Greater(a: Record, b: Record): (r: bool)
    ensures r ==> a != b
  {
    if Updated(a) && !Updated(b) then true
    else if !Updated(a) && Updated(b) then false
    else if a.size != b.size then a.size > b.size
    else if a.rank != b.rank then a.rank > b.rank
    else a.comm < b.comm
  }

  /** `operator<`: different, and not greater. */
  function Less(a: Record, b: Record): (r: bool)
    ensures r <==> Greater(b, a)
  {
    GreaterIsStrictTotalOrder(a, b, a);
    !Eq(a, b) && !Greater(a, b)
  }

  /** Equality of records is field equality, since `updated()` depends only on the fields. */
  lemma EqIsIdentity(a: Record, b: Record)
    ensures Eq(a, b) <==> a == b
  {
  }

  /** `operator>` is a strict total order: irreflexive, asymmetric, transitive, total. */
  lemma GreaterIsStrictTotalOrder(a: Record, b: Record, c: Record)
    ensures !Greater(a, a)
    ensures Greater(a, b) ==> !Greater(b, a)
    ensures Greater(a, b) && Greater(b, c) ==> Greater(a, c)
    ensures a == b || Greater(a, b) || Greater(b, a)
  {
  }

  /** `operator<` is exactly the converse of `operator>`. */
  lemma LessIsConverse(a: Record, b: Record)
    ensures Less(a, b) <==> Greater(b, a)
  {
    GreaterIsStrictTotalOrder(a, b, a);
  }

  lemma DefaultNotUpdated()
    ensures !Updated(DefaultRecord)
  {
  }

  // ---------------------------------------------------------------------------
  // Choosing and publishing the record
  // ---------------------------------------------------------------------------

  /** The records map: each entry's record carries its own key as communicator. */
  predicate WellKeyed(entries: seq<(nat, Record)>) {
    forall i :: 0 <= i < |entries| ==> entries[i].1.comm == entries[i].0
  }

  /**
    One step of the scan in `update`: an entry with a null key is skipped;
    a current choice with a null communicator is replaced; otherwise the
    entry replaces the choice when it is greater.
   */
  function ScanStep(cur: Record, e: (nat, Record)): (r: Record)
    ensures r == cur || r == e.1
    ensures e.0 == NullComm ==> r == cur
  {
    if e.0 == NullComm then cur
    else if cur.comm == NullComm then e.1
    else if Greater(e.1, cur) then e.1
    else cur
  }

  /** The scan over the entries in key order. */
  function Select(cur: Record, entries: seq<(nat, Record)>): (r: Record)
    ensures r == cur || exists i :: 0 <= i < |entries| && entries[i].0 != NullComm && r == entries[i].1
    decreases |entries|
  {
    if |entries| == 0 then cur else Select(ScanStep(cur, entries[0]), entries[1..])
  }

  /** `!Greater(a, b)` composes, by totality and transitivity. */
  lemma NotGreaterTransitive(a: Record, b: Record, c: Record)
    requires !Greater(a, b) && !Greater(b, c)
    ensures !Greater(a, c)
  {
    GreaterIsStrictTotalOrder(a, b, c);
    GreaterIsStrictTotalOrder(b, c, a);
    GreaterIsStrictTotalOrder(c, a, b);
  }

  /**
    The scan picks the greatest candidate: the starting record (when its
    communicator is not null) and every entry with a non-null key. It
    returns one of them, or the starting record when there is none, so the
    result does not depend on the order of the entries.
   */
  lemma {:induction false} SelectIsMaximum(cur: Record, entries: seq<(nat, Record)>)
    requires WellKeyed(entries)
    ensures var r := Select(cur, entries);
            (r == cur || exists i :: 0 <= i < |entries| && entries[i].0 != NullComm && r == entries[i].1) &&
            (cur.comm != NullComm ==> !Greater(cur, r)) &&
            (forall i :: 0 <= i < |entries| && entries[i].0 != NullComm ==> !Greater(entries[i].1, r))
    decreases |entries|
  {
    if |entries| > 0 {
      var e := entries[0];
      var s := ScanStep(cur, e);
      var rest := entries[1..];
      assert WellKeyed(rest) by {
        forall i | 0 <= i < |rest| ensures rest[i].1.comm == rest[i].0 {
          assert rest[i] == entries[i + 1];
        }
      }
      SelectIsMaximum(s, rest);
      var r := Select(s, rest);
      assert r == Select(cur, entries);
      if e.0 != NullComm {
        assert e.1.comm == e.0;
        if cur.comm != NullComm {
          if s == e.1 {
            assert Greater(e.1, cur) || e.1 == cur;
            if Greater(cur, r) {
              GreaterIsStrictTotalOrder(e.1, cur, r);
            }
          } else {
            assert !Greater(e.1, cur);
            NotGreaterTransitive(e.1, cur, r);
          }
        }
      }
      forall i | 0 <= i < |entries| && entries[i].0 != NullComm
        ensures !Greater(entries[i].1, r)
      {
        if i > 0 {
          assert entries[i] == rest[i - 1];
        }
      }
      if r != s {
        var k :| 0 <= k < |rest| && rest[k].0 != NullComm && r == rest[k].1;
        assert entries[k + 1] == rest[k];
      } else if r != cur {
        assert r == e.1 && e.0 != NullComm;
      }
    }
  }

  /** `update()`'s outcome: whether a new rank and size were published, and the last published record. */
  datatype Published = Published(changed: bool, last: Record)

  /**
    `mpi_gotcha::update`: choose a record starting from the process-tree
    record; publish it when it is updated and differs from the last one.
   */
  function Update(mproc: Record, entries: seq<(nat, Record)>, last: Record): (r: Published)
    ensures r.changed <==> Updated(Select(mproc, entries)) && Select(mproc, entries) != last
    ensures r.last == if r.changed then Select(mproc, entries) else last
  {
    var chosen := Select(mproc, entries);
    if Updated(chosen) && chosen != last then Published(true, chosen) else Published(false, last)
  }

  /** Nothing new is published by a second update over the same records. */
  lemma UpdateIdempotent(mproc: Record, entries: seq<(nat, Record)>, last: Record)
    ensures var first := Update(mproc, entries, last);
            Update(mproc, entries, first.last) == Published(false, first.last)
  {
  }

  // ---------------------------------------------------------------------------
  // Returning from MPI_Comm_rank / MPI_Comm_size
  // ---------------------------------------------------------------------------

  /**
    The wrapper's view of one call: the communicator and the values the
    rank and size out-parameters hold on return (when the call had one),
    and the wrapper's own `m_rank` / `m_size`.
   */
  datatype CommCall = CommCall(comm: nat, rankOut: Option<int>, sizeOut: Option<int>, mRank: int, mSize: int)

  function Max(a: int, b: int): (r: int)
    ensures r >= a && r >= b && (r == a || r == b)
  {
    if a >= b then a else b
  }

  /** The record kept for a communicator: the stored one, or a default one. */
  function EntryFor(records: map<nat, Record>, comm: nat): Record {
    if comm in records then records[comm] else DefaultRecord
  }

  datatype Merged = Merged(entry: Record, mRank: int, mSize: int)

  /**
    The max-merge on a successful return: the rank is the largest of the
    stored rank, the returned rank and `m_rank`; the size the largest of the
    stored size, the returned size and `m_size`, and with no returned size
    at least one more than the merged rank.
   */
  function MergeRankSize(stored: Record, c: CommCall): (r: Merged)
    ensures r.entry.comm == c.comm && r.entry.rank == r.mRank && r.entry.size == r.mSize
    ensures r.entry.rank >= stored.rank && r.entry.rank >= c.mRank
    ensures c.rankOut.Some? ==> r.entry.rank >= c.rankOut.value
    ensures r.entry.size >= stored.size && r.entry.size >= c.mSize
    ensures c.sizeOut.Some? ==> r.entry.size >= c.sizeOut.value
    ensures c.sizeOut.None? ==> r.entry.size >= r.entry.rank + 1
    ensures r.entry.rank == stored.rank || r.entry.rank == c.mRank ||
            (c.rankOut.Some? && r.entry.rank == c.rankOut.value)
    ensures r.entry.size == stored.size || r.entry.size == c.mSize ||
            (c.sizeOut.Some? && r.entry.size == c.sizeOut.value) ||
            (c.sizeOut.None? && r.entry.size == r.entry.rank + 1)
  {
    var getRank := if c.rankOut.Some? then Max(c.rankOut.value, c.mRank) else c.mRank;
    var rank := Max(stored.rank, getRank);
    // `_get_size` re-evaluates `_get_rank` after `m_rank` was updated.
    var getRank2 := if c.rankOut.Some? then Max(c.rankOut.value, rank) else rank;
    var getSize := if c.sizeOut.Some? then Max(c.sizeOut.value, c.mSize) else Max(c.mSize, getRank2 + 1);
    var size := Max(stored.size, getSize);
    Merged(Record(rank, size, c.comm), rank, size)
  }

  /**
    The per-thread gate in front of `update()`: `_num_updates++ <
    _disable_after`. Whether `update()` runs for the next updated record,
    and the counter afterwards.
   */
  function UpdateGate(n: int, limit: int): (r: (bool, int))
    ensures r.0 <==> n < limit
    ensures r.1 == n + 1
  {
    (n < limit, n + 1)
  }

  /** The state the outgoing wrapper works on. */
  datatype Tracker = Tracker(
    records: map<nat, Record>,
    mproc: Record,
    last: Record,
    numUpdates: int,
    disableAfter: int,
    mRank: int,
    mSize: int)

  datatype AuditResult = AuditResult(tracker: Tracker, updateCalled: bool, published: bool)

  /**
    `order` is the key sequence of the records map after the audit: the
    keys of `records`, plus `comm` when `adds`, in strictly increasing order.
   */
  ghost predicate KeyOrder(order: seq<nat>, records: map<nat, Record>, adds: bool, comm: nat) {
    (forall i, j :: 0 <= i < j < |order| ==> order[i] < order[j]) &&
    (forall k :: k in order <==> k in records || (adds && k == comm))
  }

  /** The handles of the records map, in key order, as the scan sees them. */
  function Entries(records: map<nat, Record>, order: seq<nat>): seq<(nat, Record)>
    requires forall i :: 0 <= i < |order| ==> order[i] in records
  {
    seq(|order|, i requires 0 <= i < |order| => (order[i], records[order[i]]))
  }

  /**
    The record part of the outgoing audit on a real communicator: its
    record is created if missing and stamped with its handle; for
    `MPI_Comm_rank` and `MPI_Comm_size` the rank and size are max-merged
    into it and into `m_rank` / `m_size`. No other record and nothing else
    in the tracker changes.
   */
  function Stamp(t: Tracker, tool: string, comm: nat, rankOut: Option<int>, sizeOut: Option<int>): (r: Tracker)
    ensures comm in r.records && r.records[comm].comm == comm
    ensures r.records == t.records[comm := r.records[comm]]
    ensures r.records[comm].rank >= EntryFor(t.records, comm).rank &&
            r.records[comm].size >= EntryFor(t.records, comm).size
    ensures r.(records := t.records, mRank := t.mRank, mSize := t.mSize) == t
  {
    var stored := EntryFor(t.records, comm).(comm := comm);
    var isRankOrSize := tool == "MPI_Comm_rank" || tool == "MPI_Comm_size";
    var merged := if isRankOrSize then MergeRankSize(stored, CommCall(comm, rankOut, sizeOut, t.mRank, t.mSize))
                  else Merged(stored, t.mRank, t.mSize);
    t.(records := t.records[comm := merged.entry], mRank := merged.mRank, mSize := merged.mSize)
  }

  /**
    The outgoing audit for `MPI_Comm_*` wrappers. Nothing happens on
    failure or with a null communicator. Otherwise the record is stamped
    (`Stamp`); an updated record then calls `update()` while the per-thread
    counter is below the limit (`ROCPROFSYS_MPI_MAX_COMM_UPDATES`, default
    4), and what `update()` publishes is the outcome. `order` lists the
    handles of the resulting map in increasing key order, as the `std::map`
    iterates them.
   */
  function AuditComm(t: Tracker, tool: string, success: bool, comm: nat,
                     rankOut: Option<int>, sizeOut: Option<int>, order: seq<nat>): (r: AuditResult)
    requires KeyOrder(order, t.records, success && comm != NullComm, comm)
    ensures !success || comm == NullComm ==> r == AuditResult(t, false, false)
    ensures success && comm != NullComm ==>
              var s := Stamp(t, tool, comm, rankOut, sizeOut);
              r.tracker.records == s.records && r.tracker.mRank == s.mRank && r.tracker.mSize == s.mSize
    ensures success && comm != NullComm ==> comm in r.tracker.records && r.tracker.records[comm].comm == comm
    ensures success && comm != NullComm ==>
              r.tracker.records[comm].rank >= EntryFor(t.records, comm).rank &&
              r.tracker.records[comm].size >= EntryFor(t.records, comm).size
    ensures success && comm != NullComm ==> r.tracker.records.Keys == t.records.Keys + {comm}
    ensures success && comm != NullComm ==> KeyOrder(order, r.tracker.records, true, comm)
    ensures forall k :: k in t.records && k != comm ==> k in r.tracker.records && r.tracker.records[k] == t.records[k]
    ensures r.updateCalled ==> success && comm != NullComm
    ensures r.updateCalled ==> Updated(r.tracker.records[comm]) && t.numUpdates < t.disableAfter
    ensures success && comm != NullComm && Updated(r.tracker.records[comm]) && t.numUpdates < t.disableAfter ==>
              r.updateCalled
    ensures r.updateCalled ==>
              var p := Update(t.mproc, Entries(r.tracker.records, order), t.last);
              r.published == p.changed && r.tracker.last == p.last
    ensures !r.updateCalled ==> !r.published && r.tracker.last == t.last
    ensures r.tracker.numUpdates == t.numUpdates ||
            (r.tracker.numUpdates == t.numUpdates + 1 && Updated(r.tracker.records[comm]))
    ensures r.published ==> r.updateCalled
    ensures r.tracker.mproc == t.mproc && r.tracker.disableAfter == t.disableAfter
  {
    if !success || comm == NullComm then AuditResult(t, false, false)
    else
      var t1 := Stamp(t, tool, comm, rankOut, sizeOut);
      if Updated(t1.records[comm]) then
        var (callIt, counter) := UpdateGate(t.numUpdates, t.disableAfter);
        var t2 := t1.(numUpdates := counter);
        if callIt then
          var p := Update(t.mproc, Entries(t1.records, order), t.last);
          AuditResult(t2.(last := p.last), true, p.changed)
        else AuditResult(t2, false, false)
      else AuditResult(t1, false, false)
  }

  /**
    Merging the same return values again into a merged record changes
    nothing: the max-merge is stable.
   */
  lemma MergeIsStable(stored: Record, c: CommCall)
    ensures var m := MergeRankSize(stored, c);
            MergeRankSize(m.entry, c.(mRank := m.mRank, mSize := m.mSize)) == m
  {
  }

  /** Stamping the same `MPI_Comm_rank` or `MPI_Comm_size` return twice is stamping it once. */
  lemma StampIsStable(t: Tracker, tool: string, comm: nat, rankOut: Option<int>, sizeOut: Option<int>)
    requires tool == "MPI_Comm_rank" || tool == "MPI_Comm_size"
    ensures var s1 := Stamp(t, tool, comm, rankOut, sizeOut);
            var s2 := Stamp(s1, tool, comm, rankOut, sizeOut);
            s2.records == s1.records && s2.mRank == s1.mRank && s2.mSize == s1.mSize
  {
    var stored := EntryFor(t.records, comm).(comm := comm);
    MergeIsStable(stored, CommCall(comm, rankOut, sizeOut, t.mRank, t.mSize));
  }

  /**
    Auditing the same `MPI_Comm_rank` or `MPI_Comm_size` return twice: the
    second audit leaves the records, `m_rank` and `m_size` as the first left
    them, and publishes nothing new.
   */
  lemma RepeatedAuditIsStable(t: Tracker, tool: string, comm: nat, rankOut: Option<int>, sizeOut: Option<int>,
                              order: seq<nat>)
    requires comm != NullComm && (tool == "MPI_Comm_rank" || tool == "MPI_Comm_size")
    requires KeyOrder(order, t.records, true, comm)
    ensures var a1 := AuditComm(t, tool, true, comm, rankOut, sizeOut, order);
            KeyOrder(order, a1.tracker.records, true, comm) &&
            var a2 := AuditComm(a1.tracker, tool, true, comm, rankOut, sizeOut, order);
            a2.tracker.records == a1.tracker.records &&
            a2.tracker.mRank == a1.tracker.mRank && a2.tracker.mSize == a1.tracker.mSize &&
            !a2.published
  {
    var a1 := AuditComm(t, tool, true, comm, rankOut, sizeOut, order);
    var s1 := Stamp(t, tool, comm, rankOut, sizeOut);
    StampIsStable(t, tool, comm, rankOut, sizeOut);
    assert a1.tracker == s1.(numUpdates := a1.tracker.numUpdates, last := a1.tracker.last);
    assert KeyOrder(order, a1.tracker.records, true, comm);
    var a2 := AuditComm(a1.tracker, tool, true, comm, rankOut, sizeOut, order);
    assert Stamp(a1.tracker, tool, comm, rankOut, sizeOut).records == s1.records;
    if a2.updateCalled {
      if a1.updateCalled {
        UpdateIdempotent(t.mproc, Entries(s1.records, order), t.last);
      }
    }
  }

  /**
    A successful `MPI_Comm_rank` on a real communicator that reports a
    non-negative rank (and no size) leaves that communicator's record
    updated.
   */
  lemma CommRankMakesUpdated(t: Tracker, comm: nat, rank: int, order: seq<nat>)
    requires comm != NullComm && rank >= 0
    requires KeyOrder(order, t.records, true, comm)
    ensures Updated(AuditComm(t, "MPI_Comm_rank", true, comm, Some(rank), None, order).tracker.records[comm])
  {
  }

  /** How many of `k` consecutive updated records reach `update()`, from counter `n`. */
  function GateRuns(n: int, limit: int, k: nat): nat
    decreases k
  {
    if k == 0 then 0
    else (if UpdateGate(n, limit).0 then 1 else 0) + GateRuns(UpdateGate(n, limit).1, limit, k - 1)
  }

  /**
    The bound on the thread-local `_num_updates` counter of the outgoing
    audit (the `ROCPROFSYS_MPI_MAX_COMM_UPDATES` limit): however many
    communicator updates arrive, `update()` runs at most
    `limit - n` more times from counter `n` (and never when the limit is
    reached), and exactly that many when enough arrive. `GateRuns` counts
    the runs of `UpdateGate`, the same gate `AuditComm` passes through
    (`mpi_gotcha.cpp`, lines 371-377).
   */
  lemma {:induction false} GateBounded(n: int, limit: int, k: nat)
    ensures GateRuns(n, limit, k) <= if limit - n > 0 then limit - n else 0
    ensures k >= limit - n ==> GateRuns(n, limit, k) == if limit - n > 0 then limit - n else 0
    decreases k
  {
    if k > 0 {
      GateBounded(n + 1, limit, k - 1);
    }
  }

  // ---------------------------------------------------------------------------
  // Returning from MPI_Init
  // ---------------------------------------------------------------------------

  /**
    The process-tree fallback on a successful `MPI_Init*`: when the record
    is not yet updated and the parent has concurrent child processes, the
    parent's pid becomes the communicator and their number the size; this
    process's index among them becomes the rank when it is not negative.
    Returns the record and the wrapper's `m_rank`, `m_size`.
   */
  function InitFromProcessTree(mproc: Record, ppid: nat, processCount: int, processIndex: int,
                               mRank: int, mSize: int): (r: (Record, int, int))
    ensures Updated(mproc) || processCount <= 0 ==> r == (mproc, mRank, mSize)
    ensures !Updated(mproc) && processCount > 0 ==>
              r.0.comm == ppid && r.0.size == processCount && r.2 == processCount &&
              (processIndex >= 0 ==> r.0.rank == processIndex && r.1 == processIndex) &&
              (processIndex < 0 ==> r.0.rank == mproc.rank && r.1 == mRank)
  {
    if Updated(mproc) || processCount <= 0 then (mproc, mRank, mSize)
    else
      var rec := mproc.(comm := ppid, size := processCount);
      if processIndex >= 0 then (rec.(rank := processIndex), processIndex, processCount)
      else (rec, mRank, processCount)
  }

  /**
    From the default record, a non-null parent, some processes and a
    non-negative index give an updated record, which later `MPI_Init`
    returns leave alone.
   */
  lemma InitFallbackSticks(ppid: nat, count: int, index: int, ppid2: nat, count2: int, index2: int)
    requires ppid != NullComm && count > 0 && index >= 0
    ensures var first := InitFromProcessTree(DefaultRecord, ppid, count, index, -1, -1).0;
            Updated(first) && InitFromProcessTree(first, ppid2, count2, index2, index, count).0 == first
  {
  }
}
