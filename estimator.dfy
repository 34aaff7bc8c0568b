/**
 * The orchestrator (`main` in src/main.rs) once the idle flags were reset,
 * the interval slept and the bitmap reloaded: walk every user-space region
 * of the process, add up the per-region counters, and correct the elapsed
 * time for the cost of the reset and of the reload and walk.
 */
module Estimator {
  import opened Words
  import opened Wrappers
  import opened IdleMaps
  import opened Pagemaps
  import opened Scanner

  /**
   * Regions starting above this address are taken for kernel space and not
   * walked. It is the x86-64 value; a region starting exactly here is walked.
   */
  const PAGE_OFFSET: u64 := 0xffff_8800_0000_0000

  const TWO_63: int := 0x8000_0000_0000_0000

  /** What the loop does with a region's `process_region` result: the walk of a region, or its error. */
  type Walker = (u64, u64) -> Result<Counts>

  /** The walk the program performs: `Pagemap::process_region` over the mapped table and the loaded bitmap. */
  function TableWalker(pagemap: Pagemap, idleMap: IdleMap): Walker
  {
    (s: u64, e: u64) => Ok(RegionCounts(pagemap.mmap, s, e, idleMap))
  }

  /** A walker never reports more active pages than walked pages. */
  predicate WalkerSound(walk: Walker)
  {
    forall s: u64, e: u64 :: walk(s, e).Ok? ==> walk(s, e).value.active <= walk(s, e).value.walked
  }

  predicate IsKernelRegion(r: MemoryRegion)
  {
    r.start > PAGE_OFFSET
  }

  function Plus(a: Counts, b: Counts): Counts
  {
    Counts(a.active + b.active, a.walked + b.walked)
  }

  /** What one region adds to the totals: nothing when it is skipped or its walk fails. */
  function Contribution(r: MemoryRegion, walk: Walker): Counts
  {
    if IsKernelRegion(r) then Counts(0, 0)
    else
      match walk(r.start, r.end)
      case Ok(c) => c
      case Err(_) => Counts(0, 0)
  }

  /** The totals after the regions, taken in order. */
  function TotalCounts(regions: seq<MemoryRegion>, walk: Walker): Counts
  {
    if regions == [] then Counts(0, 0)
    else
      var n := |regions| - 1;
      Plus(TotalCounts(regions[..n], walk), Contribution(regions[n], walk))
  }

  /**
   * The region loop of `main`: skip kernel regions, add the counters of every
   * region whose walk succeeds, report and drop the ones whose walk fails.
   */
  method AccumulateRegions(regions: seq<MemoryRegion>, walk: Walker) returns (totals: Counts)
    ensures totals == TotalCounts(regions, walk)
  {
    var totalActivePages: nat, totalWalkedPages: nat := 0, 0;
    for i := 0 to |regions|
      invariant Counts(totalActivePages, totalWalkedPages) == TotalCounts(regions[..i], walk)
    {
      assert regions[..i + 1][..i] == regions[..i];
      var region := regions[i];
      if region.start > PAGE_OFFSET {
        continue;
      }
      match walk(region.start, region.end)
      case Ok(c) =>
        totalActivePages := totalActivePages + c.active;
        totalWalkedPages := totalWalkedPages + c.walked;
      case Err(_) =>
    }
    assert regions[..|regions|] == regions;
    return Counts(totalActivePages, totalWalkedPages);
  }

  /** A region above the threshold adds nothing. */
  lemma KernelRegionSkipped(regions: seq<MemoryRegion>, r: MemoryRegion, walk: Walker)
    requires r.start > PAGE_OFFSET
    ensures TotalCounts(regions + [r], walk) == TotalCounts(regions, walk)
  {
    assert (regions + [r])[..|regions|] == regions;
  }

  /** A region starting exactly at the threshold is still walked. */
  lemma ThresholdRegionWalked(regions: seq<MemoryRegion>, r: MemoryRegion, walk: Walker)
    requires r.start == PAGE_OFFSET && walk(r.start, r.end).Ok?
    ensures TotalCounts(regions + [r], walk) == Plus(TotalCounts(regions, walk), walk(r.start, r.end).value)
  {
    var rs := regions + [r];
    assert rs[..|regions|] == regions && rs[|regions|] == r;
    assert !IsKernelRegion(r);
    assert Contribution(r, walk) == walk(r.start, r.end).value;
  }

  /** A region whose walk fails adds nothing, and the loop goes on. */
  lemma FailedRegionDropped(regions: seq<MemoryRegion>, r: MemoryRegion, walk: Walker)
    requires walk(r.start, r.end).Err?
    ensures TotalCounts(regions + [r], walk) == TotalCounts(regions, walk)
  {
    var rs := regions + [r];
    assert rs[..|regions|] == regions && rs[|regions|] == r;
    assert Contribution(r, walk) == Counts(0, 0);
  }

  /** The totals over two runs of regions are the sums of their totals. */
  lemma {:induction false} TotalCountsAppend(a: seq<MemoryRegion>, b: seq<MemoryRegion>, walk: Walker)
    ensures TotalCounts(a + b, walk) == Plus(TotalCounts(a, walk), TotalCounts(b, walk))
  {
    if b == [] {
      assert a + b == a;
    } else {
      var n := |b| - 1;
      assert (a + b)[..|a| + n] == a + b[..n];
      TotalCountsAppend(a, b[..n], walk);
    }
  }

  /** The totals keep `total_active_pages <= total_walked_pages`. */
  lemma {:induction false} TotalsOrdered(regions: seq<MemoryRegion>, walk: Walker)
    requires WalkerSound(walk)
    ensures TotalCounts(regions, walk).active <= TotalCounts(regions, walk).walked
  {
    if regions != [] {
      var n := |regions| - 1;
      TotalsOrdered(regions[..n], walk);
      var r := regions[n];
      if !IsKernelRegion(r) && walk(r.start, r.end).Ok? {
        assert walk(r.start, r.end).value.active <= walk(r.start, r.end).value.walked;
      }
    }
  }

  /** The walker the program runs never fails and is sound. */
  lemma TableWalkerSound(pagemap: Pagemap, idleMap: IdleMap)
    ensures WalkerSound(TableWalker(pagemap, idleMap))
    ensures forall s: u64, e: u64 :: TableWalker(pagemap, idleMap)(s, e).Ok?
  {
    var walk := TableWalker(pagemap, idleMap);
    forall s: u64, e: u64 ensures walk(s, e).Ok? && walk(s, e).value.active <= walk(s, e).value.walked {
      var c := RegionCounts(pagemap.mmap, s, e, idleMap);
      assert walk(s, e) == Ok(c);
    }
  }

  /** With the program's walker, the walked total is bounded by the pages of the user-space regions. */
  lemma {:induction false} WalkedBoundedByPages(regions: seq<MemoryRegion>, pagemap: Pagemap, idleMap: IdleMap)
    ensures TotalCounts(regions, TableWalker(pagemap, idleMap)).walked <= UserPages(regions)
  {
    if regions != [] {
      var n := |regions| - 1;
      WalkedBoundedByPages(regions[..n], pagemap, idleMap);
      var r := regions[n];
      var c := RegionCounts(pagemap.mmap, r.start, r.end, idleMap);
      assert TableWalker(pagemap, idleMap)(r.start, r.end) == Ok(c);
    }
  }

  /** The number of pages of the regions below the threshold. */
  function UserPages(regions: seq<MemoryRegion>): nat
  {
    if regions == [] then 0
    else
      var n := |regions| - 1;
      var r := regions[n];
      UserPages(regions[..n]) + (if IsKernelRegion(r) then 0 else NumPages(r.start, r.end))
  }

  // ---------------------------------------------------------------------
  // The time estimate, in microseconds.

  /** The low 64 bits of an integer read as a two's-complement number: `i64` wrap-around. */
  function WrapI64(x: int): (r: int)
    ensures -TWO_63 <= r < TWO_63
    ensures (r - x) % TWO_64 == 0
    ensures -TWO_63 <= x < TWO_63 ==> r == x
  {
    var w := x % TWO_64;
    if w < TWO_63 then w else w - TWO_64
  }

  /** `x as i64` on an unsigned value: its low 64 bits as an `i64`. */
  function AsI64(x: nat): (r: int)
    ensures -TWO_63 <= r < TWO_63
    ensures (r - x) % TWO_64 == 0
    ensures x < TWO_63 ==> r == x
  {
    WrapI64(x)
  }

  /**
   * `est_micros`: the elapsed time less half the reset's duration and half
   * the reload-and-walk's duration, each halved with `i64` division. The two
   * `i64` subtractions wrap around as in a release build; wrapping each of
   * them, or only their result, gives the same value modulo 2^64.
   */
  function EstMicros(totalMicros: nat, setMicros: nat, readWalkMicros: nat): (est: int)
    ensures -TWO_63 <= est < TWO_63
  {
    WrapI64(AsI64(totalMicros) - HalfTowardZero(AsI64(setMicros)) - HalfTowardZero(AsI64(readWalkMicros)))
  }

  /** The correction only ever lowers the estimate, and by at most half of each duration. */
  lemma EstimateBounds(totalMicros: nat, setMicros: nat, readWalkMicros: nat)
    requires totalMicros < TWO_63 && setMicros < TWO_63 && readWalkMicros < TWO_63
    ensures EstMicros(totalMicros, setMicros, readWalkMicros) <= totalMicros
    ensures 2 * (totalMicros - EstMicros(totalMicros, setMicros, readWalkMicros)) <= setMicros + readWalkMicros
    ensures setMicros + readWalkMicros <= 2 * (totalMicros - EstMicros(totalMicros, setMicros, readWalkMicros)) + 2
  {
  }

  /** With no overhead the estimate is the elapsed time. */
  lemma EstimateWithoutOverhead(totalMicros: nat)
    requires totalMicros < TWO_63
    ensures EstMicros(totalMicros, 0, 0) == totalMicros
  {
  }

  /**
   * With durations below 2^63 microseconds the subtractions never overflow:
   * the estimate is the exact difference, halves truncated.
   */
  lemma EstimateFitsI64(totalMicros: nat, setMicros: nat, readWalkMicros: nat)
    requires totalMicros < TWO_63 && setMicros < TWO_63 && readWalkMicros < TWO_63
    ensures EstMicros(totalMicros, setMicros, readWalkMicros) == totalMicros - setMicros / 2 - readWalkMicros / 2
  {
  }

  /** `Duration::as_micros` on a span of nanoseconds: whole microseconds, truncated. */
  function Micros(nanos: nat): nat
  {
    nanos / 1000
  }

  /**
   * The estimate from the four instants (in nanoseconds): ts1 before the
   * reset, ts2 when the reset returned, ts3 on waking, ts4 after the walk.
   */
  function EstimateFromInstants(ts1: nat, ts2: nat, ts3: nat, ts4: nat): int
    requires ts1 <= ts2 <= ts3 <= ts4
  {
    EstMicros(Micros(ts4 - ts1), Micros(ts2 - ts1), Micros(ts4 - ts3))
  }

  /** Truncating two spans separately loses at least as much as truncating their sum. */
  lemma MicrosSuperadditive(a: nat, b: nat)
    ensures Micros(a) + Micros(b) <= Micros(a + b)
  {
    var qa, qb := a / 1000, b / 1000;
    assert qa * 1000 <= a && qb * 1000 <= b;
    assert (qa + qb) * 1000 <= a + b;
    DivLowerBound(a + b, qa + qb);
  }

  /** q * 1000 <= n gives q <= n / 1000. */
  lemma DivLowerBound(n: nat, q: nat)
    requires q * 1000 <= n
    ensures q <= n / 1000
  {
  }

  /** In the order the instants are taken, the estimate is never negative. */
  lemma EstimateNonNegative(ts1: nat, ts2: nat, ts3: nat, ts4: nat)
    requires ts1 <= ts2 <= ts3 <= ts4
    requires Micros(ts4 - ts1) < TWO_63
    ensures EstimateFromInstants(ts1, ts2, ts3, ts4) >= 0
  {
    MicrosSuperadditive(ts2 - ts1, ts4 - ts3);
    MicrosMonotone(ts2 - ts1 + (ts4 - ts3), ts4 - ts1);
  }

  /** Truncation to microseconds keeps the order of spans. */
  lemma MicrosMonotone(a: nat, b: nat)
    requires a <= b
    ensures Micros(a) <= Micros(b)
  {
  }

  // ---------------------------------------------------------------------
  // One measurement, from the reloaded bitmap on.

  /**
   * Walk the regions listed in `mapsLines` over the mapped table and the
   * reloaded bitmap, and compute the estimate from the four instants. The
   * result is the estimate in microseconds and the active-page total.
   */
  method Measure(idleMap: IdleMap, mapsLines: seq<string>, pagemap: Pagemap, ts1: nat, ts2: nat, ts3: nat, ts4: nat)
    returns (estMicros: int, totalActivePages: nat)
    requires ts1 <= ts2 <= ts3 <= ts4
    ensures totalActivePages == TotalCounts(ParsedRegions(mapsLines, ParseMapLine), TableWalker(pagemap, idleMap)).active
    ensures totalActivePages <= UserPages(ParsedRegions(mapsLines, ParseMapLine))
    ensures estMicros == EstimateFromInstants(ts1, ts2, ts3, ts4)
    ensures Micros(ts4 - ts1) < TWO_63 ==> 0 <= estMicros <= Micros(ts4 - ts1)
  {
    var regions := GetMaps(mapsLines);
    var totals := AccumulateRegions(regions, TableWalker(pagemap, idleMap));
    TableWalkerSound(pagemap, idleMap);
    TotalsOrdered(regions, TableWalker(pagemap, idleMap));
    WalkedBoundedByPages(regions, pagemap, idleMap);
    totalActivePages := totals.active;
    var totalMicros := Micros(ts4 - ts1);
    var setMicros := Micros(ts2 - ts1);
    var readWalkMicros := Micros(ts4 - ts3);
    estMicros := EstMicros(totalMicros, setMicros, readWalkMicros);
    if totalMicros < TWO_63 {
      EstimateNonNegative(ts1, ts2, ts3, ts4);
      MicrosMonotone(ts2 - ts1, ts4 - ts1);
      MicrosMonotone(ts4 - ts3, ts4 - ts1);
      EstimateBounds(totalMicros, setMicros, readWalkMicros);
    }
  }
}
