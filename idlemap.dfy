/**
 * The page-idle bitmap (`IdleMap` in src/idlemap.rs): a snapshot of the
 * kernel's per-frame idle flags, one bit per physical frame number (PFN),
 * read back after every frame was marked idle. A set bit means the frame was
 * not touched since the reset; a clear bit means it was accessed.
 */
module IdleMaps {
  import opened Words

  /** The loaded snapshot. It is a value: a lookup cannot change it. */
  datatype IdleMap = IdleMap(data: seq<bv8>)

  /** The byte written to the bitmap file by the reset: every frame idle. */
  const IDLE_BYTE: bv8 := 0xFF

  /** `1 << bit` within one byte. */
  function BitMask(bit: nat): bv8
    requires bit < 8
  {
    (1 as bv8) << bit
  }

  /**
   * `IdleMap::is_page_active`: the frame is active when its bit is clear.
   * A frame whose byte lies past the snapshot is reported as not active.
   */
  function IsPageActive(m: IdleMap, pfn: u64): (active: bool)
    ensures active ==> pfn / 8 < |m.data|
  {
    var byteIdx := pfn / 8;
    if byteIdx >= |m.data| then false
    else (m.data[byteIdx] & BitMask(pfn % 8)) == 0
  }

  // ---------------------------------------------------------------------
  // An arithmetic reference reading of the bitmap: the flags as a sequence
  // of booleans, bit k of byte i standing for frame 8 * i + k.

  /** Bit k of a number: its remainder by 2 after k halvings. */
  predicate BitOf(v: nat, k: nat)
  {
    if k == 0 then v % 2 == 1 else BitOf(v / 2, k - 1)
  }

  /** Bit k of a byte, read arithmetically. */
  predicate BitIsSet(b: bv8, k: nat)
  {
    BitOf(b as int, k)
  }

  /** The idle flags of every frame the snapshot covers, in frame order. */
  function IdleFlags(data: seq<bv8>): (flags: seq<bool>)
    ensures |flags| == 8 * |data|
  {
    if data == [] then []
    else
      var b := data[0];
      [BitIsSet(b, 0), BitIsSet(b, 1), BitIsSet(b, 2), BitIsSet(b, 3),
       BitIsSet(b, 4), BitIsSet(b, 5), BitIsSet(b, 6), BitIsSet(b, 7)]
      + IdleFlags(data[1..])
  }

  /** The flag of frame pfn is bit pfn % 8 of byte pfn / 8. */
  lemma {:induction false} IdleFlagsAt(data: seq<bv8>, pfn: nat)
    requires pfn < 8 * |data|
    ensures IdleFlags(data)[pfn] == BitIsSet(data[pfn / 8], pfn % 8)
  {
    if pfn >= 8 {
      IdleFlagsAt(data[1..], pfn - 8);
      assert (pfn - 8) / 8 == pfn / 8 - 1 && (pfn - 8) % 8 == pfn % 8;
    }
  }

  /** Bit k of a byte is bit k - 1 of the byte shifted right once. */
  lemma MaskOfShifted(b: bv8, k: nat)
    requires 0 < k < 8
    ensures ((b & BitMask(k)) != 0) == (((b >> 1) & BitMask(k - 1)) != 0)
  {
  }

  /** Shifting a byte right once halves its value. */
  lemma ShiftHalves(b: bv8)
    ensures (b >> 1) as int == b as int / 2
  {
  }

  /** The lowest bit of a byte is its parity. */
  lemma LowBitIsParity(b: bv8)
    ensures ((b & BitMask(0)) != 0) == (b as int % 2 == 1)
  {
  }

  /** The mask test of the source agrees with the arithmetic bit. */
  lemma {:induction false} MaskTestIsBit(b: bv8, k: nat)
    requires k < 8
    ensures ((b & BitMask(k)) != 0) == BitIsSet(b, k)
  {
    if k == 0 {
      LowBitIsParity(b);
    } else {
      MaskOfShifted(b, k);
      ShiftHalves(b);
      MaskTestIsBit(b >> 1, k - 1);
    }
  }

  /**
   * The lookup against the reference: a frame is active exactly when the
   * snapshot covers it and its idle flag is clear.
   */
  lemma LookupMatchesFlags(m: IdleMap, pfn: u64)
    ensures IsPageActive(m, pfn) <==> pfn < |IdleFlags(m.data)| && !IdleFlags(m.data)[pfn]
  {
    if pfn / 8 < |m.data| {
      IdleFlagsAt(m.data, pfn);
      MaskTestIsBit(m.data[pfn / 8], pfn % 8);
    }
  }

  // ---------------------------------------------------------------------
  // Consequences of the lookup's definition.

  /** Past the end of the snapshot nothing is active. */
  lemma OutOfRangeNotActive(m: IdleMap, pfn: u64)
    requires pfn / 8 >= |m.data|
    ensures !IsPageActive(m, pfn)
  {
  }

  /** Right after the reset pattern is read back every frame is idle. */
  lemma ResetPatternAllIdle(n: nat, pfn: u64)
    ensures !IsPageActive(IdleMap(seq(n, _ => IDLE_BYTE)), pfn)
  {
  }

  /** In an all-zero snapshot every covered frame is active, and no other. */
  lemma ZeroSnapshotAllActive(n: nat, pfn: u64)
    ensures IsPageActive(IdleMap(seq(n, _ => 0 as bv8)), pfn) <==> pfn / 8 < n
  {
  }

  /** The answer depends on the snapshot's length and on the frame's own byte only. */
  lemma DependsOnOwnByte(m1: IdleMap, m2: IdleMap, pfn: u64)
    requires |m1.data| == |m2.data|
    requires pfn / 8 < |m1.data| ==> m1.data[pfn / 8] == m2.data[pfn / 8]
    ensures IsPageActive(m1, pfn) == IsPageActive(m2, pfn)
  {
  }

  /** The snapshot with the idle bit of frame pfn set (nothing changes past the end). */
  function MarkIdle(m: IdleMap, pfn: u64): (m': IdleMap)
    ensures |m'.data| == |m.data|
  {
    var i := pfn / 8;
    if i < |m.data| then IdleMap(m.data[i := m.data[i] | BitMask(pfn % 8)]) else m
  }

  /** Setting a frame's idle bit makes that frame inactive. */
  lemma MarkIdleMakesInactive(m: IdleMap, pfn: u64)
    ensures !IsPageActive(MarkIdle(m, pfn), pfn)
  {
  }

  /** Setting a frame's idle bit leaves the answer for every other frame as it was. */
  lemma MarkIdleKeepsOthers(m: IdleMap, pfn: u64, other: u64)
    requires other != pfn
    ensures IsPageActive(MarkIdle(m, pfn), other) == IsPageActive(m, other)
  {
    if other / 8 == pfn / 8 && pfn / 8 < |m.data| {
      assert other % 8 != pfn % 8;
      var b := m.data[pfn / 8];
      var j, k := pfn % 8, other % 8;
      assert (((b | BitMask(j)) & BitMask(k)) == 0) == ((b & BitMask(k)) == 0);
    }
  }
}
