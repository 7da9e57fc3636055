/**
 Formatting: the layout of the device, the SIT table with the free segment list, and the NAT table
 with the free node id list. What it writes satisfies the invariant the allocators rely on.
 */
module Mkfs {
  import opened Wrappers
  import opened Bytes
  import opened Tables
  import opened Allocator
  import opened AllocatorSafety
  import Sit = SitEntry

  const ENTRIES_IN_SUM := 512
  const META_JOURNAL_BLK_CNT := 1024
  const ROOT_INO: u32 := 2
  const UINT32_MAX := 0xFFFF_FFFF

  function UpperBound(x: nat, y: nat): nat requires y > 0 { (x + y - 1) / y }

  /** The first block after a region of whole segments. */
  function NextRegion(start: nat, segs: nat): nat { (start / BLOCK_PER_SEGMENT + segs) * BLOCK_PER_SEGMENT }

  lemma NextRegionIs(start: nat, segs: nat)
    requires start % BLOCK_PER_SEGMENT == 0
    ensures NextRegion(start, segs) == start + segs * BLOCK_PER_SEGMENT
    ensures NextRegion(start, segs) % BLOCK_PER_SEGMENT == 0 && NextRegion(start, segs) / BLOCK_PER_SEGMENT == start / BLOCK_PER_SEGMENT + segs
  {
    assert start == start / BLOCK_PER_SEGMENT * BLOCK_PER_SEGMENT;
  }

  datatype Layout = Layout(blockCount: nat, segCount: nat,
                           journalStart: nat, journalSegs: nat, sitStart: nat, sitSegs: nat,
                           natStart: nat, natSegs: nat, srmapStart: nat, srmapSegs: nat,
                           mainStart: nat, mainSegs: nat, super: Super)

  /** Segments taken by a table of `entries` entries, `per` to a block. */
  function TableSegs(entries: nat, per: nat): nat
    requires per > 0
  {
    UpperBound(UpperBound(entries, per), BLOCK_PER_SEGMENT)
  }

  /** The layout for a device of `lpaNum` blocks, or nothing when it is too large or too small. */
  function FormatSuper(lpaNum: nat): Option<Layout> {
    if lpaNum >= UINT32_MAX then None
    else
      var segCount := lpaNum / BLOCK_PER_SEGMENT;
      var blockCount := lpaNum - lpaNum % BLOCK_PER_SEGMENT;
      Arrange(segCount, blockCount, TableSegs(segCount, SIT_ENTRY_PER_BLOCK),
              TableSegs(blockCount, NAT_ENTRY_PER_BLOCK), TableSegs(blockCount, ENTRIES_IN_SUM))
  }

  /** Places the regions one after the other; the main area takes what is left. */
  function Arrange(segCount: nat, blockCount: nat, sitSegs: nat, natSegs: nat, srmapSegs: nat): Option<Layout>
    requires segCount < 0x1_0000_0000
  {
    var journalStart := BLOCK_PER_SEGMENT;
    var journalSegs := UpperBound(META_JOURNAL_BLK_CNT, BLOCK_PER_SEGMENT);
    var sitStart := NextRegion(journalStart, journalSegs);
    var natStart := NextRegion(sitStart, sitSegs);
    var srmapStart := NextRegion(natStart, natSegs);
    var mainSeg := srmapStart / BLOCK_PER_SEGMENT + srmapSegs;
    if mainSeg >= segCount then None
    else if mainSeg + 2 >= segCount then None
    else
      Some(Layout(blockCount, segCount, journalStart, journalSegs, sitStart, sitSegs, natStart, natSegs,
                  srmapStart, srmapSegs, mainSeg * BLOCK_PER_SEGMENT, segCount - mainSeg,
                  Super(mainSeg + 2, segCount - (mainSeg + 2), mainSeg, 1, mainSeg + 1, 2, ROOT_INO + 1)))
  }

  /** One region ends where the next begins, and each is large enough for the table it holds. */
  ghost predicate Disjoint(l: Layout) {
    && BLOCK_PER_SEGMENT <= l.journalStart
    && l.journalStart + l.journalSegs * BLOCK_PER_SEGMENT == l.sitStart
    && l.sitStart + l.sitSegs * BLOCK_PER_SEGMENT == l.natStart
    && l.natStart + l.natSegs * BLOCK_PER_SEGMENT == l.srmapStart
    && l.srmapStart + l.srmapSegs * BLOCK_PER_SEGMENT == l.mainStart
    && l.mainStart + l.mainSegs * BLOCK_PER_SEGMENT == l.blockCount
  }

  ghost predicate LargeEnough(l: Layout) {
    && META_JOURNAL_BLK_CNT <= l.journalSegs * BLOCK_PER_SEGMENT
    && l.segCount <= l.sitSegs * BLOCK_PER_SEGMENT * SIT_ENTRY_PER_BLOCK
    && l.blockCount <= l.natSegs * BLOCK_PER_SEGMENT * NAT_ENTRY_PER_BLOCK
    && l.blockCount <= l.srmapSegs * BLOCK_PER_SEGMENT * ENTRIES_IN_SUM
  }

  /** Every number fits its field: addresses and node ids 32 bits, segment links 23 bits. */
  ghost predicate InRange(l: Layout) {
    && l.blockCount <= UINT32_MAX
    && l.segCount < 0x80_0000
    && l.natSegs * BLOCK_PER_SEGMENT * NAT_ENTRY_PER_BLOCK <= 0x1_0000_0000
    && 0 < l.mainStart / BLOCK_PER_SEGMENT && l.mainStart / BLOCK_PER_SEGMENT * BLOCK_PER_SEGMENT == l.mainStart
  }

  lemma UpperBoundCovers(x: nat, y: nat)
    requires y == 512 || y == 60
    ensures x <= UpperBound(x, y) * y < x + y
  {
  }

  lemma WholeSegments(lpaNum: nat)
    ensures var blocks := lpaNum - lpaNum % 512; blocks == lpaNum / 512 * 512 <= lpaNum && UpperBound(blocks, 512) == lpaNum / 512
  {
    var segs := lpaNum / 512;
    UpperBoundCovers(segs * 512, 512);
  }

  /** The two-step size computation of a table of `n` entries covers them, and exceeds by under a segment. */
  lemma TableFits(n: nat, perBlock: nat)
    requires perBlock == 512 || perBlock == 60
    ensures var segs := TableSegs(n, perBlock);
            n <= segs * 512 * perBlock < n + perBlock + 512 * perBlock
  {
    hide UpperBound;
    UpperBoundCovers(n, perBlock);
    UpperBoundCovers(UpperBound(n, perBlock), 512);
  }

  /** Every accepted device is laid out in disjoint regions inside it, large enough for their tables. */
  lemma LayoutIsSound(lpaNum: nat)
    requires FormatSuper(lpaNum).Some?
    ensures var l := FormatSuper(lpaNum).value;
            Disjoint(l) && LargeEnough(l) && InRange(l) && l.blockCount <= lpaNum && l.blockCount == l.segCount * BLOCK_PER_SEGMENT
  {
    hide TableSegs, Arrange, UpperBound;
    var segCount, blocks := lpaNum / 512, lpaNum - lpaNum % 512;
    WholeSegments(lpaNum);
    Regions(segCount, blocks, TableSegs(segCount, 60), TableSegs(blocks, 512), TableSegs(blocks, 512));
    NatFits(lpaNum);
    TableFits(segCount, 60);
    TableFits(blocks, 512);
  }

  lemma Regions(segCount: nat, blockCount: nat, sitSegs: nat, natSegs: nat, srmapSegs: nat)
    requires segCount < 0x1_0000_0000 && Arrange(segCount, blockCount, sitSegs, natSegs, srmapSegs).Some?
    ensures
      var l := Arrange(segCount, blockCount, sitSegs, natSegs, srmapSegs).value;
      && l.segCount == segCount && l.blockCount == blockCount
      && l.sitSegs == sitSegs && l.natSegs == natSegs && l.srmapSegs == srmapSegs
      && l.journalStart == 512 && l.journalSegs == 2 && l.sitStart == 3 * 512
      && l.natStart == l.sitStart + l.sitSegs * 512 && l.srmapStart == l.natStart + l.natSegs * 512
      && l.mainStart == l.srmapStart + l.srmapSegs * 512
      && l.mainStart / 512 * 512 == l.mainStart && 0 < l.mainStart / 512 && l.mainSegs == segCount - l.mainStart / 512
      && l.mainStart / 512 + 2 < segCount
      && l.super == Super(l.mainStart / 512 + 2, segCount - (l.mainStart / 512 + 2), l.mainStart / 512, 1, l.mainStart / 512 + 1, 2, 3)
  {
    assert UpperBound(1024, 512) == 2;
    hide UpperBound, NextRegion;
    NextRegionIs(512, 2);
    NextRegionIs(1536, sitSegs);
    NextRegionIs(1536 + sitSegs * 512, natSegs);
  }

  lemma NatFits(lpaNum: nat)
    requires lpaNum < UINT32_MAX
    ensures var segs := TableSegs(lpaNum - lpaNum % 512, 512);
            lpaNum / 512 < 0x80_0000 && segs <= 0x4000 && segs * 512 * 512 <= 0x1_0000_0000
  {
    hide UpperBound;
    WholeSegments(lpaNum);
    UpperBoundCovers(lpaNum / 512, 512);
  }

  /** A device is accepted exactly when its blocks can be addressed and a free segment remains. */
  lemma AcceptedExactly(lpaNum: nat)
    ensures
      var segs, blocks := lpaNum / 512, lpaNum - lpaNum % 512;
      var overhead := 3 + TableSegs(segs, 60) + 2 * TableSegs(blocks, 512);
      FormatSuper(lpaNum).Some? <==> lpaNum < UINT32_MAX && overhead + 3 <= segs
  {
    assert UpperBound(1024, 512) == 2;
    hide TableSegs, UpperBound, NextRegion;
    var segs, blocks := lpaNum / 512, lpaNum - lpaNum % 512;
    NextRegionIs(512, 2);
    NextRegionIs(1536, TableSegs(segs, 60));
    NextRegionIs(1536 + TableSegs(segs, 60) * 512, TableSegs(blocks, 512));
  }
}
