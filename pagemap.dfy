/**
 * The pagemap walker (`Pagemap::process_region` in src/pagemap.rs). The
 * per-process translation table /proc/<pid>/pagemap holds one 8-byte record
 * per virtual page: bit 63 says the page is present, bits 0-54 hold its
 * physical frame number. The table is memory-mapped and indexed directly;
 * here the mapping is the byte sequence it shows.
 */
module Pagemaps {
  import opened Words
  import opened Wrappers
  import opened IdleMaps

  const PAGE_SIZE: nat := 4096
  const PAGEMAP_ENTRY_SIZE: nat := 8
  /** Bits 0-54: the physical frame number. */
  const PFN_MASK: bv64 := 0x7F_FFFF_FFFF_FFFF
  /** Bit 63: the page is present in memory. */
  const PRESENT_MASK: bv64 := 1 << 63

  /** The mapped image of the translation table. */
  datatype Pagemap = Pagemap(mmap: seq<bv8>)

  /** The `(active_pages, walked_pages)` pair a walk returns. */
  datatype Counts = Counts(active: nat, walked: nat)

  predicate IsPresent(entry: bv64)
  {
    entry & PRESENT_MASK != 0
  }

  function FrameNumber(entry: bv64): u64
  {
    (entry & PFN_MASK) as int
  }

  /** An entry the walk counts: present, with a nonzero frame number. */
  predicate IsWalkable(entry: bv64)
  {
    IsPresent(entry) && FrameNumber(entry) != 0
  }

  /** `(end_addr - start_addr) / page_size`, the subtraction wrapping as `u64`. */
  function NumPages(startAddr: u64, endAddr: u64): (n: nat)
    ensures startAddr <= endAddr ==> n == (endAddr - startAddr) / PAGE_SIZE
    ensures endAddr < startAddr ==> n == (TWO_64 - (startAddr - endAddr)) / PAGE_SIZE
    ensures n < TWO_64 / PAGE_SIZE
  {
    ((endAddr - startAddr) % TWO_64) / PAGE_SIZE
  }

  /** Byte offset of the region's first record in the table. */
  function TableOffset(startAddr: u64): (offset: nat)
    ensures offset % PAGEMAP_ENTRY_SIZE == 0 && offset / PAGEMAP_ENTRY_SIZE == startAddr / PAGE_SIZE
    ensures offset < TWO_64
  {
    startAddr / PAGE_SIZE * PAGEMAP_ENTRY_SIZE
  }

  /** How many whole records the table holds from byte `offset` on. */
  function EntriesThatFit(len: nat, offset: nat): (n: nat)
    ensures offset + n * PAGEMAP_ENTRY_SIZE <= len || n == 0
    ensures offset + (n + 1) * PAGEMAP_ENTRY_SIZE > len
  {
    if offset <= len then (len - offset) / PAGEMAP_ENTRY_SIZE else 0
  }

  /** The i-th record from byte `offset` on. */
  function EntryAt(mmap: seq<bv8>, offset: nat, i: nat): bv64
    requires offset + i * PAGEMAP_ENTRY_SIZE + PAGEMAP_ENTRY_SIZE <= |mmap|
  {
    LoadU64LE(mmap, offset + i * PAGEMAP_ENTRY_SIZE)
  }

  /** The first k records from byte `offset` on. */
  function Entries(mmap: seq<bv8>, offset: nat, k: nat): (es: seq<bv64>)
    requires k <= EntriesThatFit(|mmap|, offset)
    ensures |es| == k
  {
    if k == 0 then [] else Entries(mmap, offset, k - 1) + [EntryAt(mmap, offset, k - 1)]
  }

  function Min(a: nat, b: nat): nat
  {
    if a <= b then a else b
  }

  /**
   * The records the walk of [startAddr, endAddr) reads: one per page of the
   * region, stopping before the first record that would run past the table.
   */
  function VisitedEntries(mmap: seq<bv8>, startAddr: u64, endAddr: u64): (es: seq<bv64>)
    ensures |es| <= NumPages(startAddr, endAddr)
    ensures |es| == Min(NumPages(startAddr, endAddr), EntriesThatFit(|mmap|, TableOffset(startAddr)))
  {
    var offset := TableOffset(startAddr);
    Entries(mmap, offset, Min(NumPages(startAddr, endAddr), EntriesThatFit(|mmap|, offset)))
  }

  /** What one record adds to the counters. */
  function Tally(c: Counts, entry: bv64, idleMap: IdleMap): Counts
  {
    if !IsPresent(entry) then c
    else if FrameNumber(entry) == 0 then c
    else Counts(if IsPageActive(idleMap, FrameNumber(entry)) then c.active + 1 else c.active,
                c.walked + 1)
  }

  /** The counters after visiting the records in order. */
  function CountEntries(es: seq<bv64>, idleMap: IdleMap): (c: Counts)
    ensures c.active <= c.walked <= |es|
  {
    if es == [] then Counts(0, 0)
    else Tally(CountEntries(es[..|es| - 1], idleMap), es[|es| - 1], idleMap)
  }

  /** The result of walking one region. */
  function RegionCounts(mmap: seq<bv8>, startAddr: u64, endAddr: u64, idleMap: IdleMap): (c: Counts)
    ensures c.active <= c.walked <= NumPages(startAddr, endAddr)
  {
    CountEntries(VisitedEntries(mmap, startAddr, endAddr), idleMap)
  }

  /** One more record visited: the counters take one more step of Tally. */
  lemma TallyNext(mmap: seq<bv8>, offset: nat, i: nat, idleMap: IdleMap)
    requires i + 1 <= EntriesThatFit(|mmap|, offset)
    ensures CountEntries(Entries(mmap, offset, i + 1), idleMap)
            == Tally(CountEntries(Entries(mmap, offset, i), idleMap), EntryAt(mmap, offset, i), idleMap)
  {
    var es := Entries(mmap, offset, i + 1);
    assert es[..i] == Entries(mmap, offset, i);
  }

  /**
   * `Pagemap::process_region`: count the present pages of a region with a
   * nonzero frame number, and those among them the idle map reports active.
   * It never reports an error.
   */
  method ProcessRegion(pagemap: Pagemap, startAddr: u64, endAddr: u64, idleMap: IdleMap)
    returns (r: Result<Counts>)
    ensures r == Ok(RegionCounts(pagemap.mmap, startAddr, endAddr, idleMap))
    ensures r.value.active <= r.value.walked <= NumPages(startAddr, endAddr)
  {
    var numPages := NumPages(startAddr, endAddr);
    var offset := TableOffset(startAddr);
    var activePages, walkedPages := 0, 0;
    for i := 0 to numPages
      invariant i <= EntriesThatFit(|pagemap.mmap|, offset)
      invariant Counts(activePages, walkedPages) == CountEntries(Entries(pagemap.mmap, offset, i), idleMap)
    {
      var entryOffset := offset + i * PAGEMAP_ENTRY_SIZE;
      if entryOffset + PAGEMAP_ENTRY_SIZE > |pagemap.mmap| {
        break;
      }
      var entry := LoadU64LE(pagemap.mmap, entryOffset);
      ghost var before := Counts(activePages, walkedPages);
      TallyNext(pagemap.mmap, offset, i, idleMap);
      assert entry == EntryAt(pagemap.mmap, offset, i);
      if !IsPresent(entry) {
        continue;
      }
      var pfn := FrameNumber(entry);
      if pfn == 0 {
        continue;
      }
      if IsPageActive(idleMap, pfn) {
        activePages := activePages + 1;
      }
      walkedPages := walkedPages + 1;
      assert Counts(activePages, walkedPages) == Tally(before, entry, idleMap);
    }
    return Ok(Counts(activePages, walkedPages));
  }

  // ---------------------------------------------------------------------
  // Properties of the walk.

  /** Record i of the first k read from `offset` on is the i-th record of the table there. */
  lemma {:induction false} EntriesAt(mmap: seq<bv8>, offset: nat, k: nat, i: nat)
    requires k <= EntriesThatFit(|mmap|, offset)
    requires i < k
    ensures Entries(mmap, offset, k)[i] == EntryAt(mmap, offset, i)
  {
    if i < k - 1 {
      EntriesAt(mmap, offset, k - 1, i);
    }
  }

  /** A record without the present bit adds to neither counter. */
  lemma AbsentEntryNotCounted(c: Counts, entry: bv64, idleMap: IdleMap)
    requires entry & PRESENT_MASK == 0
    ensures Tally(c, entry, idleMap) == c
  {
  }

  /** A present record with frame number 0 adds to neither counter. */
  lemma ZeroFrameNotCounted(c: Counts, entry: bv64, idleMap: IdleMap)
    requires entry & PFN_MASK == 0
    ensures Tally(c, entry, idleMap) == c
  {
  }

  /** The indices of the walkable records among es. */
  function WalkedIndices(es: seq<bv64>): set<int>
  {
    set i | 0 <= i < |es| && IsWalkable(es[i])
  }

  /** The indices of the walkable records among es whose frame the idle map reports active. */
  function ActiveIndices(es: seq<bv64>, idleMap: IdleMap): set<int>
  {
    set i | 0 <= i < |es| && IsWalkable(es[i]) && IsPageActive(idleMap, FrameNumber(es[i]))
  }

  /** One more record adds its own index to the sets it belongs to, and nothing else. */
  lemma IndicesSnoc(es: seq<bv64>, e: bv64, idleMap: IdleMap)
    ensures |es| !in WalkedIndices(es) && |es| !in ActiveIndices(es, idleMap)
    ensures WalkedIndices(es + [e]) == WalkedIndices(es) + (if IsWalkable(e) then {|es|} else {})
    ensures ActiveIndices(es + [e], idleMap)
            == ActiveIndices(es, idleMap) + (if IsWalkable(e) && IsPageActive(idleMap, FrameNumber(e)) then {|es|} else {})
  {
    var es' := es + [e];
    assert forall i | 0 <= i < |es| :: es'[i] == es[i];
  }

  /**
   * What the counters mean: `walked` is the number of present records with
   * a nonzero frame number, `active` the number of those whose frame the
   * idle map reports active.
   */
  lemma {:induction false} CountsAreCardinalities(es: seq<bv64>, idleMap: IdleMap)
    ensures CountEntries(es, idleMap).walked == |WalkedIndices(es)|
    ensures CountEntries(es, idleMap).active == |ActiveIndices(es, idleMap)|
  {
    if es != [] {
      var n := |es| - 1;
      var init := es[..n];
      CountsAreCardinalities(init, idleMap);
      assert es == init + [es[n]];
      IndicesSnoc(init, es[n], idleMap);
    }
  }

  /**
   * The walk reads the records of the region's pages in order from byte
   * `(start / 4096) * 8` on, and stops before the first one that would pass
   * the end of the table: what it counts is exactly those records.
   */
  lemma WalkReadsFittingEntries(mmap: seq<bv8>, startAddr: u64, endAddr: u64, i: nat)
    requires i < |VisitedEntries(mmap, startAddr, endAddr)|
    ensures i < NumPages(startAddr, endAddr)
    ensures TableOffset(startAddr) + (i + 1) * PAGEMAP_ENTRY_SIZE <= |mmap|
    ensures VisitedEntries(mmap, startAddr, endAddr)[i] == LoadU64LE(mmap, TableOffset(startAddr) + i * PAGEMAP_ENTRY_SIZE)
  {
    var offset := TableOffset(startAddr);
    EntriesAt(mmap, offset, Min(NumPages(startAddr, endAddr), EntriesThatFit(|mmap|, offset)), i);
  }

  /** Bytes past the last record of the region do not change what the walk counts. */
  lemma {:induction false} TrailingBytesIgnored(mmap: seq<bv8>, extra: seq<bv8>, startAddr: u64, endAddr: u64, idleMap: IdleMap)
    requires TableOffset(startAddr) + NumPages(startAddr, endAddr) * PAGEMAP_ENTRY_SIZE <= |mmap|
    ensures RegionCounts(mmap + extra, startAddr, endAddr, idleMap) == RegionCounts(mmap, startAddr, endAddr, idleMap)
  {
    var offset, n := TableOffset(startAddr), NumPages(startAddr, endAddr);
    assert EntriesThatFit(|mmap|, offset) >= n;
    assert EntriesThatFit(|mmap + extra|, offset) >= n;
    EntriesOfLongerTable(mmap, extra, offset, n);
  }

  /** The first k records are the same in a table and in any extension of it. */
  lemma {:induction false} EntriesOfLongerTable(mmap: seq<bv8>, extra: seq<bv8>, offset: nat, k: nat)
    requires k <= EntriesThatFit(|mmap|, offset)
    ensures k <= EntriesThatFit(|mmap + extra|, offset)
    ensures Entries(mmap + extra, offset, k) == Entries(mmap, offset, k)
  {
    if k > 0 {
      EntriesOfLongerTable(mmap, extra, offset, k - 1);
      var at := offset + (k - 1) * PAGEMAP_ENTRY_SIZE;
      assert (mmap + extra)[at..at + 8] == mmap[at..at + 8];
      assert EntryAt(mmap + extra, offset, k - 1) == EntryAt(mmap, offset, k - 1);
    }
  }

  /** The scenario's table: [present, frame 10], [absent], [present, frame 20]. */
  const SCENARIO_TABLE: seq<bv8> :=
    [10, 0, 0, 0, 0, 0, 0, 0x80,
     0, 0, 0, 0, 0, 0, 0, 0,
     20, 0, 0, 0, 0, 0, 0, 0x80]

  /** The scenario's bitmap: frame 10 idle (bit 2 of byte 1 set), frame 20 accessed. */
  const SCENARIO_BITMAP: IdleMap := IdleMap([0x00, 0x04, 0x00])

  /** Each of the scenario's records decodes as meant. */
  lemma ScenarioRecordValues()
    ensures EntriesThatFit(|SCENARIO_TABLE|, 0) == 3
    ensures EntryAt(SCENARIO_TABLE, 0, 0) == PRESENT_MASK | 10
    ensures EntryAt(SCENARIO_TABLE, 0, 1) == 0
    ensures EntryAt(SCENARIO_TABLE, 0, 2) == PRESENT_MASK | 20
  {
    var t := SCENARIO_TABLE;
    assert t[0..8] == StoreU64LE(PRESENT_MASK | 10);
    assert t[8..16] == StoreU64LE(0);
    assert t[16..24] == StoreU64LE(PRESENT_MASK | 20);
    LoadAt(t, 0, StoreU64LE(PRESENT_MASK | 10));
    LoadAt(t, 8, StoreU64LE(0));
    LoadAt(t, 16, StoreU64LE(PRESENT_MASK | 20));
    LoadStore(PRESENT_MASK | 10);
    LoadStore(0);
    LoadStore(PRESENT_MASK | 20);
  }

  /** The scenario's table holds the three records it is meant to. */
  lemma ScenarioRecords()
    ensures VisitedEntries(SCENARIO_TABLE, 0, 3 * PAGE_SIZE)
            == [PRESENT_MASK | 10, 0, PRESENT_MASK | 20]
  {
    var t := SCENARIO_TABLE;
    ScenarioRecordValues();
    assert NumPages(0, 3 * PAGE_SIZE) == 3;
    assert Entries(t, 0, 1) == [PRESENT_MASK | 10];
    assert Entries(t, 0, 2) == [PRESENT_MASK | 10, 0];
    assert Entries(t, 0, 3) == [PRESENT_MASK | 10, 0, PRESENT_MASK | 20];
  }

  /** Counting the scenario's records: one of the two walked pages is active. */
  lemma ScenarioTally()
    ensures CountEntries([PRESENT_MASK | 10, 0, PRESENT_MASK | 20], SCENARIO_BITMAP) == Counts(1, 2)
  {
    var es: seq<bv64> := [PRESENT_MASK | 10, 0, PRESENT_MASK | 20];
    assert FrameNumber(PRESENT_MASK | 10) == 10 && FrameNumber(PRESENT_MASK | 20) == 20;
    assert IsPageActive(SCENARIO_BITMAP, 20) && !IsPageActive(SCENARIO_BITMAP, 10);
    assert es[..1] == [PRESENT_MASK | 10] && es[..2] == [PRESENT_MASK | 10, 0];
    assert CountEntries(es[..1], SCENARIO_BITMAP) == Counts(0, 1);
    assert CountEntries(es[..2], SCENARIO_BITMAP) == Counts(0, 1);
  }

  /**
   * The three-page scenario over a region covering exactly those pages:
   * frame 10 is idle and frame 20 accessed, so the walk reports one active
   * page out of two walked.
   */
  lemma ThreePageScenario()
    ensures RegionCounts(SCENARIO_TABLE, 0, 3 * PAGE_SIZE, SCENARIO_BITMAP) == Counts(1, 2)
  {
    ScenarioRecords();
    ScenarioTally();
  }
}
