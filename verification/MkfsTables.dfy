/**
 Formatting the SIT and NAT tables: one buffer is filled entry by entry and written block by block.
 The tables on the device then satisfy the invariant that the allocators keep.
 */
module MkfsTables {
  import opened Wrappers
  import opened Bytes
  import opened Tables
  import opened Allocator
  import opened AllocatorSafety
  import opened AllocatorRuns
  import opened Mkfs
  import Sit = SitEntry

  function ZeroMap(): (z: seq<byte>)
    ensures |z| == 64 && forall i | 0 <= i < 64 :: z[i] == 0
  {
    seq(64, _ => 0)
  }

  function ZeroSit(): Sit.Entry { Sit.Entry(0, ZeroMap()) }
  const ZERO_NAT: NatEntry := NatEntry(0, INVALID)

  function MainSeg(l: Layout): nat { l.mainStart / BLOCK_PER_SEGMENT }
  function NidCount(l: Layout): nat { l.natSegs * BLOCK_PER_SEGMENT * NAT_ENTRY_PER_BLOCK }

  /** What FormatSuper promises of a layout it accepts. */
  ghost predicate Accepted(l: Layout) {
    && Disjoint(l) && LargeEnough(l) && InRange(l)
    && l.segCount > MainSeg(l) + 2 && l.blockCount == l.segCount * BLOCK_PER_SEGMENT && l.natSegs > 0
    && l.super == Super(MainSeg(l) + 2, l.segCount - (MainSeg(l) + 2), MainSeg(l), 1, MainSeg(l) + 1, 2, ROOT_INO + 1)
  }

  lemma SuperIsAccepted(lpaNum: nat)
    requires FormatSuper(lpaNum).Some?
    ensures Accepted(FormatSuper(lpaNum).value)
  {
    LayoutIsSound(lpaNum);
    hide TableSegs, Arrange, Disjoint, LargeEnough, InRange;
    var segs, blocks := lpaNum / 512, lpaNum - lpaNum % 512;
    Regions(segs, blocks, TableSegs(segs, 60), TableSegs(blocks, 512), TableSegs(blocks, 512));
    assert LargeEnough(FormatSuper(lpaNum).value);
    NatSegsPositive(FormatSuper(lpaNum).value);
  }

  lemma NatSegsPositive(l: Layout)
    requires LargeEnough(l) && l.blockCount > 0
    ensures l.natSegs > 0
  {
  }

  // ----- SIT -----

  /** The link word is only ever OR-ed into, so the entry's own link must still be zero. */
  function SetNextSeg(e: Sit.Entry, next: nat): Sit.Entry
    requires e.NextSeg() == 0 && next < 0x80_0000
  {
    Sit.Entry(e.vblocks + next * 512, e.validMap)
  }

  /** The entry a main-area segment must have: two active segments, then a chain of free ones. */
  function SitWanted(l: Layout, seg: nat): Sit.Entry
    requires seg < l.segCount < 0x80_0000
  {
    if seg == MainSeg(l) then Sit.Validate(ZeroSit(), 0)
    else if seg == MainSeg(l) + 1 then Sit.Validate(Sit.Validate(ZeroSit(), 0), 1)
    else Sit.Entry(if seg + 1 < l.segCount then (seg + 1) * 512 else 0, ZeroMap())
  }

  lemma RootEntries()
    ensures Sit.Validate(ZeroSit(), 0) == Sit.Entry(1, ZeroMap()[0 := 1])
    ensures Sit.Validate(Sit.Validate(ZeroSit(), 0), 1) == Sit.Entry(2, ZeroMap()[0 := 3])
  {
    assert Sit.WithBit(0, 0) == 1;
    assert Sit.WithBit(1, 1) == 3;
    var e := Sit.Validate(ZeroSit(), 0);
    assert e == Sit.Entry(1, ZeroMap()[0 := 1]);
    assert e.validMap[0 / 8] == 1 && e.validMap[1 / 8] == 1;
    assert 1 % 8 == 1;
  }

  // ----- tables in blocks -----

  /** Slot `i` of a table with `per` slots in a block: block `start + i / per`, slot `i % per`. */
  predicate Stored<T(==)>(disk: map<nat, seq<T>>, start: nat, per: nat, i: nat, e: T)
    requires per > 0
  {
    start + i / per in disk && i % per < |disk[start + i / per]| && disk[start + i / per][i % per] == e
  }

  /** The first `n` slots of a block whose slot 0 is entry `base` hold the table, from entry `first` on. */
  ghost predicate Holds<T>(table: seq<T>, block: seq<T>, base: nat, n: nat, first: nat) {
    n <= |block| && base + n <= |table| && forall i | 0 <= i < n && first <= base + i :: block[i] == table[base + i]
  }

  lemma HoldsNothing<T>(table: seq<T>, block: seq<T>, base: nat, n: nat, first: nat)
    requires n <= |block| && base + n <= |table| && (n == 0 || base + n <= first)
    ensures Holds(table, block, base, n, first)
  {
  }

  lemma HoldsOneMore<T>(table: seq<T>, block: seq<T>, base: nat, n: nat, first: nat)
    requires Holds(table, block, base, n, first) && n < |block| && base + n < |table|
    ensures Holds(table, block[n := table[base + n]], base, n + 1, first)
  {
  }

  /** Block `c` of the table on the device is right. */
  ghost predicate BlockHolds<T>(table: seq<T>, disk: map<nat, seq<T>>, start: nat, per: nat, c: nat, n: nat, first: nat) {
    start + c in disk && Holds(table, disk[start + c], c * per, n, first)
  }

  ghost predicate BlocksHold<T>(table: seq<T>, disk: map<nat, seq<T>>, start: nat, per: nat, from: nat, to: nat, first: nat) {
    forall c | from <= c < to :: BlockHolds(table, disk, start, per, c, per, first)
  }

  lemma BlockWritten<T>(table: seq<T>, disk: map<nat, seq<T>>, start: nat, per: nat, from: nat, to: nat, n: nat, first: nat, block: seq<T>)
    requires BlocksHold(table, disk, start, per, from, to, first) && Holds(table, block, to * per, n, first)
    ensures BlocksHold(table, disk[start + to := block], start, per, from, to, first)
    ensures BlockHolds(table, disk[start + to := block], start, per, to, n, first)
  {
    hide Holds;
    var disk' := disk[start + to := block];
    forall c | from <= c < to ensures BlockHolds(table, disk', start, per, c, per, first) {
      assert BlockHolds(table, disk, start, per, c, per, first);
    }
  }

  lemma NoBlockYet<T>(table: seq<T>, disk: map<nat, seq<T>>, start: nat, per: nat, from: nat, first: nat)
    ensures BlocksHold(table, disk, start, per, from, from, first)
  {
  }

  lemma OneMoreBlock<T>(table: seq<T>, disk: map<nat, seq<T>>, start: nat, per: nat, from: nat, to: nat, first: nat)
    requires BlocksHold(table, disk, start, per, from, to, first) && BlockHolds(table, disk, start, per, to, per, first)
    ensures BlocksHold(table, disk, start, per, from, to + 1, first)
  {
    hide BlockHolds;
  }

  lemma SlotStored<T>(table: seq<T>, disk: map<nat, seq<T>>, start: nat, per: nat, n: nat, first: nat, i: nat)
    requires per == 60 || per == 512
    requires first <= i < |table| && i % per < n
    requires BlockHolds(table, disk, start, per, i / per, n, first)
    ensures Stored(disk, start, per, i, table[i])
  {
    assert i / per * per + i % per == i;
  }

  /** Whole blocks and a last partial one hold every entry of the table. */
  lemma TableStored<T>(table: seq<T>, disk: map<nat, seq<T>>, start: nat, per: nat, last: nat, n: nat, first: nat)
    requires per == 60 || per == 512
    requires |table| == last * per + n && n <= per
    requires BlocksHold(table, disk, start, per, first / per, last, first)
    requires n > 0 ==> BlockHolds(table, disk, start, per, last, n, first)
    ensures forall i | first <= i < |table| :: Stored(disk, start, per, i, table[i])
  {
    hide BlockHolds, Holds, Stored;
    forall i | first <= i < |table| ensures Stored(disk, start, per, i, table[i]) {
      BlockOfSlot(per, first, i, last, n);
      SlotStored(table, disk, start, per, if i / per < last then per else n, first, i);
    }
  }

  lemma BlockOfSlot(per: nat, first: nat, i: nat, last: nat, n: nat)
    requires (per == 60 || per == 512) && first <= i < last * per + n && n <= per
    ensures first / per <= i / per <= last && i % per < per && (i / per == last ==> i % per < n)
  {
  }

  // ----- the SIT -----

  ghost function SitTable(l: Layout): (t: seq<Sit.Entry>)
    requires l.segCount < 0x80_0000
    ensures |t| == l.segCount
  {
    seq(l.segCount, seg requires 0 <= seg < l.segCount => SitWanted(l, seg))
  }

  lemma SitFits(l: Layout)
    requires Accepted(l)
    ensures MainSeg(l) < l.segCount < 0x80_0000
  {
  }

  lemma SlotOf(b: nat, n: nat)
    requires n <= 60
    ensures var seg := b * 60 + n;
            if n < 60 then seg % 60 == n && seg / 60 == b else seg % 60 == 0 && seg / 60 == b + 1
  {
  }

  /** One entry filled in over a zeroed slot. */
  function FillSit(l: Layout, seg: nat, e: Sit.Entry): (r: Sit.Entry)
    requires Accepted(l) && MainSeg(l) <= seg < l.segCount && e == ZeroSit()
    ensures r == SitWanted(l, seg)
  {
    RootEntries();
    if seg == l.super.nodeSeg then Sit.Entry(1, e.validMap[0 := 1])
    else if seg == l.super.dataSeg then Sit.Entry(2, e.validMap[0 := 3])
    else SetNextSeg(e, if seg == l.segCount - 1 then INVALID else seg + 1)
  }

  /** Fills the slot of `seg` in the block buffer; the first slot of a block clears the buffer first. */
  method FillSlot(l: Layout, seg: nat, buffer: array<Sit.Entry>, ghost b: nat, ghost n: nat)
    requires Accepted(l) && MainSeg(l) <= seg < l.segCount < 0x80_0000 && buffer.Length == 60
    requires seg == b * 60 + n && n < 60
    requires n > 0 ==> Holds(SitTable(l), buffer[..], b * 60, n, MainSeg(l)) && forall i | n <= i < 60 :: buffer[i] == ZeroSit()
    modifies buffer
    ensures Holds(SitTable(l), buffer[..], b * 60, n + 1, MainSeg(l))
    ensures forall i | n + 1 <= i < 60 :: buffer[i] == ZeroSit()
  {
    SlotOf(b, n);
    assert SitTable(l)[seg] == SitWanted(l, seg);
    hide SitWanted, ZeroSit, Accepted, Holds, FillSit, MainSeg, SitTable;
    var index := seg % SIT_ENTRY_PER_BLOCK;
    if index == 0 {
      forall i | 0 <= i < buffer.Length { buffer[i] := ZeroSit(); }
      HoldsNothing(SitTable(l), buffer[..], b * 60, 0, MainSeg(l));
    }
    ghost var before := buffer[..];
    buffer[index] := FillSit(l, seg, buffer[index]);
    assert buffer[..] == before[n := SitWanted(l, seg)];
    HoldsOneMore(SitTable(l), before, b * 60, n, MainSeg(l));
  }

  /** The blocks before `b` are written, and block `b` too once all its 60 slots are filled. */
  ghost predicate SitWritten(l: Layout, disk: map<nat, seq<Sit.Entry>>, b: nat, n: nat)
    requires l.segCount < 0x80_0000
  {
    && BlocksHold(SitTable(l), disk, l.sitStart, 60, MainSeg(l) / 60, b, MainSeg(l))
    && (n == 60 ==> BlockHolds(SitTable(l), disk, l.sitStart, 60, b, 60, MainSeg(l)))
    && (forall a | a in disk :: l.sitStart <= a < l.natStart)
  }

  lemma SitBlockDone(l: Layout, disk: map<nat, seq<Sit.Entry>>, b: nat)
    requires l.segCount < 0x80_0000 && SitWritten(l, disk, b, 60)
    ensures SitWritten(l, disk, b + 1, 0)
  {
    OneMoreBlock(SitTable(l), disk, l.sitStart, 60, MainSeg(l) / 60, b, MainSeg(l));
  }

  lemma SitBlockWritten(l: Layout, disk: map<nat, seq<Sit.Entry>>, b: nat, n: nat, block: seq<Sit.Entry>)
    requires l.segCount < 0x80_0000 && SitWritten(l, disk, b, 0) && Holds(SitTable(l), block, b * 60, n, MainSeg(l))
    requires l.sitStart + b < l.natStart
    ensures SitWritten(l, disk[l.sitStart + b := block], b, n)
    ensures BlockHolds(SitTable(l), disk[l.sitStart + b := block], l.sitStart, 60, b, n, MainSeg(l))
  {
    hide BlocksHold, BlockHolds, Holds, SitTable;
    BlockWritten(SitTable(l), disk, l.sitStart, 60, MainSeg(l) / 60, b, n, MainSeg(l), block);
  }

  lemma SitUnfinished(l: Layout, disk: map<nat, seq<Sit.Entry>>, b: nat, n: nat, n': nat)
    requires l.segCount < 0x80_0000 && SitWritten(l, disk, b, n) && n' != 60
    ensures SitWritten(l, disk, b, n')
  {
  }

  /** Writes the SIT entries of the main area, one block buffer at a time. */
  method FormatSit(l: Layout) returns (disk: map<nat, seq<Sit.Entry>>)
    requires Accepted(l)
    ensures forall seg | MainSeg(l) <= seg < l.segCount :: Stored(disk, l.sitStart, 60, seg, SitWanted(l, seg))
    ensures forall lpa | lpa in disk :: l.sitStart <= lpa < l.natStart
  {
    hide SitWanted, ZeroSit, Accepted, Holds, BlockHolds, Stored, MainSeg, SitTable, SitWritten;
    SitFits(l);
    var buffer := new Sit.Entry[SIT_ENTRY_PER_BLOCK](_ => ZeroSit());
    disk := map[];
    var main := MainSeg(l);
    var seg, lpa := main, l.sitStart + main / SIT_ENTRY_PER_BLOCK;
    ghost var b, n := main / 60, main % 60;
    HoldsNothing(SitTable(l), buffer[..], b * 60, n, main);
    SitNotWritten(l, b, n);
    while seg < l.segCount
      invariant 0 <= b && 0 <= n <= 60 && seg == b * 60 + n && main <= seg <= l.segCount
      invariant lpa == l.sitStart + b && (n == 0 ==> seg == main)
      invariant SitWritten(l, disk, b, n) && Holds(SitTable(l), buffer[..], b * 60, n, main)
      invariant forall i | n <= i < 60 :: buffer[i] == ZeroSit()
    {
      SlotOf(b, n);
      lpa := l.sitStart + seg / SIT_ENTRY_PER_BLOCK;
      if n == 60 {
        SitBlockDone(l, disk, b);
        b, n := b + 1, 0;
      }
      FillSlot(l, seg, buffer, b, n);
      SitUnfinished(l, disk, b, n, if n == 59 then 0 else n + 1);
      if seg % SIT_ENTRY_PER_BLOCK == SIT_ENTRY_PER_BLOCK - 1 {
        SitInRegion(l, b, 60);
        SitBlockWritten(l, disk, b, 60, buffer[..]);
        disk := disk[lpa := buffer[..]];
      }
      seg, n := seg + 1, n + 1;
    }
    SitUnfinished(l, disk, b, n, 0);
    SitInRegion(l, b, n);
    SitBlockWritten(l, disk, b, n, buffer[..]);
    disk := disk[lpa := buffer[..]];
    SitStored(l, disk, b, n);
  }

  lemma SitNotWritten(l: Layout, b: nat, n: nat)
    requires l.segCount < 0x80_0000 && b == MainSeg(l) / 60 && n < 60
    ensures SitWritten(l, map[], b, n)
  {
  }

  lemma SitInRegion(l: Layout, b: nat, n: nat)
    requires Accepted(l) && b * 60 + n <= l.segCount && 0 < n <= 60
    ensures l.sitStart + b < l.natStart
  {
  }

  lemma SitStored(l: Layout, disk: map<nat, seq<Sit.Entry>>, b: nat, n: nat)
    requires l.segCount < 0x80_0000 && l.segCount == b * 60 + n && n <= 60
    requires SitWritten(l, disk, b, n) && BlockHolds(SitTable(l), disk, l.sitStart, 60, b, n, MainSeg(l))
    ensures forall seg | MainSeg(l) <= seg < l.segCount :: Stored(disk, l.sitStart, 60, seg, SitWanted(l, seg))
    ensures forall lpa | lpa in disk :: l.sitStart <= lpa < l.natStart
  {
    hide BlocksHold, BlockHolds, Stored, SitWanted, MainSeg;
    TableStored(SitTable(l), disk, l.sitStart, 60, b, n, MainSeg(l));
    assert forall seg | 0 <= seg < l.segCount :: SitTable(l)[seg] == SitWanted(l, seg);
  }

  // ----- the NAT -----

  /** The entry a node id must have: the root inode, then a chain of free ids; 0 and 1 are unused. */
  function NatWanted(l: Layout, nid: nat): NatEntry
    requires nid < NidCount(l) <= 0x1_0000_0000 && l.super.nodeSeg < 0x80_0000
  {
    if nid < ROOT_INO then ZERO_NAT
    else if nid == ROOT_INO then NatEntry(ROOT_INO, l.super.nodeSeg * BLOCK_PER_SEGMENT)
    else NatEntry(0, if nid + 1 < NidCount(l) then nid + 1 else INVALID)
  }

  ghost function NatTable(l: Layout): (t: seq<NatEntry>)
    requires NidCount(l) <= 0x1_0000_0000 && l.super.nodeSeg < 0x80_0000
    ensures |t| == NidCount(l) && forall nid | 0 <= nid < NidCount(l) :: t[nid] == NatWanted(l, nid)
  {
    seq(NidCount(l), nid requires 0 <= nid < NidCount(l) => NatWanted(l, nid))
  }

  lemma NatFitsRegion(l: Layout)
    requires Accepted(l)
    ensures l.natStart + l.natSegs * 512 == l.srmapStart && l.natSegs > 0
    ensures 0x4_0000 <= NidCount(l) == (l.natSegs * 512) * 512 <= 0x1_0000_0000 && l.super.nodeSeg < 0x80_0000
  {
  }

  /** Writes the whole NAT, one block buffer at a time. */
  method FormatNat(l: Layout) returns (disk: map<nat, seq<NatEntry>>)
    requires Accepted(l)
    ensures forall nid | 0 <= nid < NidCount(l) :: Stored(disk, l.natStart, 512, nid, NatWanted(l, nid))
    ensures forall lpa | lpa in disk :: l.natStart <= lpa < l.srmapStart
  {
    NatFitsRegion(l);
    hide Accepted, NidCount, Holds, BlockHolds, BlocksHold, Stored;
    var buffer := new NatEntry[NAT_ENTRY_PER_BLOCK](_ => ZERO_NAT);
    disk := map[];
    var end := l.natStart + l.natSegs * BLOCK_PER_SEGMENT;
    buffer[ROOT_INO] := NatEntry(ROOT_INO, l.super.nodeSeg * BLOCK_PER_SEGMENT);
    var lpa, index, nid := l.natStart, ROOT_INO + 1, ROOT_INO + 1;
    ghost var want, b := NatTable(l), 0;
    FirstIds(l, want, buffer[..]);
    NoBlockYet(want, disk, l.natStart, 512, 0, 0);
    while lpa < end
      invariant lpa == l.natStart + b && 0 <= b <= l.natSegs * 512 && 0 <= index < 512 && nid == b * 512 + index
      invariant lpa == end ==> index == 0
      invariant lpa == l.natStart ==> 3 <= index
      invariant BlocksHold(want, disk, l.natStart, 512, 0, b, 0)
      invariant Holds(want, buffer[..], b * 512, index, 0)
      invariant forall a | a in disk :: l.natStart <= a < lpa
      decreases end - lpa, 512 - index
    {
      var next := if lpa == end - 1 && index == NAT_ENTRY_PER_BLOCK - 1 then INVALID else nid + 1;
      ghost var before := buffer[..];
      buffer[index] := NatEntry(0, next);
      assert buffer[..] == before[index := want[nid]];
      HoldsOneMore(want, before, b * 512, index, 0);
      if index == NAT_ENTRY_PER_BLOCK - 1 {
        BlockWritten(want, disk, l.natStart, 512, 0, b, 512, 0, buffer[..]);
        disk := disk[lpa := buffer[..]];
        OneMoreBlock(want, disk, l.natStart, 512, 0, b, 0);
        forall i | 0 <= i < buffer.Length { buffer[i] := ZERO_NAT; }
      }
      nid := nid + 1;
      index := index + 1;
      if index == NAT_ENTRY_PER_BLOCK {
        index := 0;
        lpa, b := lpa + 1, b + 1;
        HoldsNothing(want, buffer[..], b * 512, 0, 0);
      }
    }
    TableStored(want, disk, l.natStart, 512, b, 0, 0);
  }

  lemma FirstIds(l: Layout, want: seq<NatEntry>, block: seq<NatEntry>)
    requires NidCount(l) <= 0x1_0000_0000 && l.super.nodeSeg < 0x80_0000 && 3 <= NidCount(l)
    requires want == NatTable(l) && |block| == 512
    requires block[0] == block[1] == ZERO_NAT && block[2] == NatEntry(ROOT_INO, l.super.nodeSeg * BLOCK_PER_SEGMENT)
    ensures Holds(want, block, 0 * 512, 3, 0)
  {
  }

  // ----- what the allocators find at the first mount -----

  /** The metadata as mounted: the super block, the entries of the main area, and the whole NAT. */
  ghost function MountedFs(l: Layout): Fs
    requires Accepted(l)
  {
    NatFitsRegion(l);
    Fs(0, l.super,
       map seg: u32 | MainSeg(l) <= seg < l.segCount :: SitWanted(l, seg),
       map nid: u32 | nid < NidCount(l) :: NatWanted(l, nid), [], [], [])
  }

  /** The device after formatting: what FormatSit and FormatNat promise of the blocks they wrote. */
  ghost predicate OnDevice(l: Layout, sits: map<nat, seq<Sit.Entry>>, nats: map<nat, seq<NatEntry>>)
  {
    && Accepted(l) && NidCount(l) <= 0x1_0000_0000
    && (forall seg | MainSeg(l) <= seg < l.segCount :: Stored(sits, l.sitStart, 60, seg, SitWanted(l, seg)))
    && (forall nid | 0 <= nid < NidCount(l) :: Stored(nats, l.natStart, 512, nid, NatWanted(l, nid)))
  }

  /** The slot of a block on the device. */
  ghost function Slot<T>(disk: map<nat, seq<T>>, lpa: nat, slot: nat, none: T): T {
    if lpa in disk && slot < |disk[lpa]| then disk[lpa][slot] else none
  }

  /** The metadata read back from the device, at the positions where the running system looks entries up. */
  ghost function ReadBack(l: Layout, sits: map<nat, seq<Sit.Entry>>, nats: map<nat, seq<NatEntry>>): Fs {
    Fs(0, l.super,
       map seg: u32 | MainSeg(l) <= seg < l.segCount :: Slot(sits, l.sitStart + SitBlock(seg), SitSlot(seg), ZeroSit()),
       map nid: u32 | nid < NidCount(l) :: Slot(nats, l.natStart + NatBlock(nid), NatSlot(nid), ZERO_NAT), [], [], [])
  }

  /** What is read back from a formatted device is what the allocators need to find. */
  lemma ReadBackIsMounted(l: Layout, sits: map<nat, seq<Sit.Entry>>, nats: map<nat, seq<NatEntry>>)
    requires OnDevice(l, sits, nats)
    ensures ReadBack(l, sits, nats) == MountedFs(l)
  {
    hide Accepted, SitWanted, NatWanted, Slot, Stored, SitBlock, SitSlot, NatBlock, NatSlot, NidCount, MainSeg;
    SitFits(l);
    NatFitsRegion(l);
    var a, b := ReadBack(l, sits, nats), MountedFs(l);
    forall seg: u32 | MainSeg(l) <= seg < l.segCount
      ensures Slot(sits, l.sitStart + SitBlock(seg), SitSlot(seg), ZeroSit()) == SitWanted(l, seg)
    {
      SitSlotRead(sits, l.sitStart, seg, SitWanted(l, seg));
    }
    assert a.sit == b.sit;
    forall nid: u32 | nid < NidCount(l)
      ensures Slot(nats, l.natStart + NatBlock(nid), NatSlot(nid), ZERO_NAT) == NatWanted(l, nid)
    {
      NatSlotRead(nats, l.natStart, nid, NatWanted(l, nid));
    }
    assert a.nats == b.nats;
  }

  lemma SitSlotRead(sits: map<nat, seq<Sit.Entry>>, start: nat, seg: u32, e: Sit.Entry)
    requires Stored(sits, start, 60, seg, e)
    ensures Slot(sits, start + SitBlock(seg), SitSlot(seg), ZeroSit()) == e
  {
  }

  lemma NatSlotRead(nats: map<nat, seq<NatEntry>>, start: nat, nid: u32, e: NatEntry)
    requires Stored(nats, start, 512, nid, e)
    ensures Slot(nats, start + NatBlock(nid), NatSlot(nid), ZERO_NAT) == e
  {
  }

  /** Ids `from`, `from + 1` and so on up to `to`. */
  ghost function Range(from: nat, to: nat): (r: seq<u32>)
    requires from <= to <= 0x1_0000_0000
    ensures |r| == to - from && forall i | 0 <= i < |r| :: r[i] == from + i
  {
    seq(to - from, i requires 0 <= i < to - from => from + i)
  }

  /** Everything from segment main + 2 on is free, every id from 3 on is free, three blocks are the root's. */
  ghost function MountedPast(l: Layout): Past
    requires Accepted(l)
  {
    NatFitsRegion(l);
    var root := l.mainStart;
    Past(Range(MainSeg(l) + 2, l.segCount), {}, {root, root + 512, root + 513}, Range(3, NidCount(l)),
         map[ROOT_INO := NatWanted(l, ROOT_INO)])
  }

  /** The first run: the root's node block came from the node segment, its two data blocks from the data segment. */
  ghost function FirstRun(l: Layout, fs: Fs): Run
    requires Accepted(l)
  {
    NatFitsRegion(l);
    var root := l.mainStart;
    Run(fs, MountedPast(l), Lane([l.super.nodeSeg], 0, {root}), Lane([l.super.dataSeg], 0, {root + 512, root + 513}))
  }

  lemma LanesEstablished(l: Layout)
    requires Accepted(l)
    ensures
      var r := FirstRun(l, MountedFs(l));
      LaneOk(r.fs, r.past, NodeBlock, r.node) && LaneOk(r.fs, r.past, DataBlock, r.data)
  {
    hide LargeEnough, Disjoint, SitWanted, NatWanted;
    var r, root := FirstRun(l, MountedFs(l)), l.mainStart;
    assert r.node.segs[..0] == [] && r.data.segs[..0] == [];
    forall lpa: nat ensures lpa in r.node.blocks <==> InLane(r.fs, r.node, 1, lpa) { FirstBlocks(l, lpa); }
    forall lpa: nat ensures lpa in r.data.blocks <==> InLane(r.fs, r.data, 2, lpa) { FirstBlocks(l, lpa); }
  }

  lemma FirstBlocks(l: Layout, lpa: nat)
    requires Accepted(l)
    ensures lpa / 512 == MainSeg(l) && lpa % 512 < 1 <==> lpa == l.mainStart
    ensures lpa / 512 == MainSeg(l) + 1 && lpa % 512 < 2 <==> lpa == l.mainStart + 512 || lpa == l.mainStart + 513
  {
    hide LargeEnough, Disjoint;
  }

  /** The root directory is found: its NAT entry leads to a valid block of the node segment, and its two data blocks are valid. */
  lemma RootIsMapped(l: Layout)
    requires Accepted(l)
    ensures
      var fs := MountedFs(l);
      && 2 in fs.nats && fs.nats[2].ino == 2 && fs.nats[2].blockAddr >= fs.seg0
      && LpaValid(fs, fs.nats[2].blockAddr) && SegOf(fs, fs.nats[2].blockAddr) == fs.super.nodeSeg
      && LpaValid(fs, FirstLpa(fs, fs.super.dataSeg)) && LpaValid(fs, FirstLpa(fs, fs.super.dataSeg) + 1)
  {
    NatFitsRegion(l);
    hide LargeEnough, Disjoint, Sit.Entry.Valid, Sit.Validate;
    FirstBlocks(l, l.mainStart);
    FirstBlocks(l, l.mainStart + 512);
    FirstBlocks(l, l.mainStart + 513);
    RootBits();
  }

  /** No other block is valid. */
  lemma OnlyRootIsValid(l: Layout, lpa: nat)
    requires Accepted(l) && LpaValid(MountedFs(l), lpa)
    ensures lpa in MountedPast(l).issued
  {
    hide SitWanted, NatWanted, Sit.Entry.Valid, LargeEnough, Disjoint;
    FirstBlocks(l, lpa);
    EntriesCount(l, SegOf(MountedFs(l), lpa));
  }

  lemma RootBits()
    ensures var one := Sit.Validate(ZeroSit(), 0); one.WellFormed() && one.Valid(0)
    ensures var two := Sit.Validate(Sit.Validate(ZeroSit(), 0), 1); two.WellFormed() && two.Valid(0) && two.Valid(1)
  {
    var one := Sit.Change(ZeroSit(), 0, true);
    Sit.ChangeBits(ZeroSit(), 0, true, 0);
    Sit.ChangeBits(one, 1, true, 0);
    Sit.ChangeBits(one, 1, true, 1);
  }

  lemma {:induction false} FreeSegmentsChain(l: Layout, from: nat)
    requires Accepted(l) && MainSeg(l) + 2 <= from <= l.segCount
    ensures SegChain(MountedFs(l).sit, if from < l.segCount then from else INVALID, Range(from, l.segCount))
    decreases l.segCount - from
  {
    if from < l.segCount {
      FreeSegmentsChain(l, from + 1);
      assert Range(from, l.segCount)[1..] == Range(from + 1, l.segCount);
      FreeEntry(l, from);
    }
  }

  lemma FreeEntry(l: Layout, seg: nat)
    requires Accepted(l) && MainSeg(l) + 2 <= seg < l.segCount
    ensures SitWanted(l, seg).NextSeg() == (if seg + 1 < l.segCount then seg + 1 else INVALID)
    ensures SitWanted(l, seg).Count() == 0
  {
  }

  lemma {:induction false} FreeIdsChain(l: Layout, from: nat)
    requires Accepted(l) && 3 <= from <= NidCount(l) <= 0x1_0000_0000
    ensures NidChain(MountedFs(l).nats, if from < NidCount(l) then from else INVALID, Range(from, NidCount(l)))
    decreases NidCount(l) - from
  {
    hide Accepted;
    if from < NidCount(l) {
      FreeIdsChain(l, from + 1);
      assert Range(from, NidCount(l))[1..] == Range(from + 1, NidCount(l));
    }
  }

  lemma ZeroIsEmpty(e: Sit.Entry)
    requires e.validMap == ZeroMap()
    ensures EmptyFrom(e, 0)
  {
    assert forall b :: !Sit.BitOf(0, b) by {
      forall b ensures !Sit.BitOf(0, b) { ZeroBit(b); }
    }
  }

  lemma {:induction false} ZeroBit(b: nat)
    ensures !Sit.BitOf(0, b)
  {
    if b > 0 { ZeroBit(b - 1); }
  }

  lemma EntriesCount(l: Layout, seg: nat)
    requires Accepted(l) && MainSeg(l) <= seg < l.segCount
    ensures Sit.CountOk(SitWanted(l, seg))
    ensures EmptyFrom(SitWanted(l, seg), if seg == MainSeg(l) then 1 else if seg == MainSeg(l) + 1 then 2 else 0)
  {
    var zero := ZeroSit();
    ZeroIsEmpty(zero);
    assert Sit.CountOk(zero) by { Sit.PopulationZero(zero, 512); }
    hide Accepted, Sit.Validate, Sit.Population, Sit.Entry.Valid, Sit.CountOk;
    var one := Sit.Change(zero, 0, true);
    ChangedEntry(zero, 0, true, 1);
    Sit.ChangeBits(zero, 0, true, 1);
    ChangedEntry(one, 1, true, 2);
    if seg > MainSeg(l) + 1 {
      var e := SitWanted(l, seg);
      ZeroIsEmpty(e);
      assert Sit.CountOk(e) by { FreeCountOk(l, seg); }
    }
  }

  lemma FreeCountOk(l: Layout, seg: nat)
    requires Accepted(l) && MainSeg(l) + 2 <= seg < l.segCount
    ensures Sit.CountOk(SitWanted(l, seg))
  {
    var e := SitWanted(l, seg);
    hide Accepted;
    ZeroIsEmpty(e);
    FreeEntry(l, seg);
    Sit.PopulationZero(e, 512);
  }

  /** A freshly formatted device satisfies the invariant of the allocators, free lists complete. */
  lemma FormatEstablishesInv(l: Layout)
    requires Accepted(l)
    ensures Inv(MountedFs(l), MountedPast(l))
    ensures forall seg | seg in MountedFs(l).sit :: seg in MountedPast(l).freeSegs || seg == l.super.nodeSeg || seg == l.super.dataSeg
  {
    hide Sit.CountOk, EmptyFrom, SitWanted, NatWanted, Accepted;
    SegmentsEstablished(l);
    IdsEstablished(l);
    forall seg | seg in MountedFs(l).sit ensures seg in MountedPast(l).freeSegs || seg == l.super.nodeSeg || seg == l.super.dataSeg {
      Complete(l, seg);
    }
  }

  lemma Complete(l: Layout, seg: u32)
    requires Accepted(l) && MainSeg(l) <= seg < l.segCount
    ensures seg in MountedPast(l).freeSegs || seg == l.super.nodeSeg || seg == l.super.dataSeg
  {
    if seg >= MainSeg(l) + 2 {
      assert MountedPast(l).freeSegs[seg - (MainSeg(l) + 2)] == seg;
    }
  }

  lemma IdsEstablished(l: Layout)
    requires Accepted(l)
    ensures NidInv(MountedFs(l), MountedPast(l))
  {
    NatFitsRegion(l);
    FreeIdsChain(l, 3);
    var fs, p := MountedFs(l), MountedPast(l);
    assert fs.super.nextNid == 3;
    hide NidChain, Accepted;
    forall nid | nid in fs.nats && nid > 1 ensures Live(fs, nid) || nid in p.freeNids {
      if nid > 2 { assert p.freeNids[nid - 3] == nid; }
    }
  }

  lemma FreeListEstablished(l: Layout)
    requires Accepted(l)
    ensures FreeOk(MountedFs(l), MountedPast(l))
  {
    var fs, p := MountedFs(l), MountedPast(l);
    FreeSegmentsChain(l, MainSeg(l) + 2);
    hide SegChain, EmptyFrom, SitWanted, LargeEnough, Disjoint;
    forall i | 0 <= i < |p.freeSegs| ensures p.freeSegs[i] in fs.sit && EmptyFrom(fs.sit[p.freeSegs[i]], 0) && fs.sit[p.freeSegs[i]].Count() == 0 {
      EntriesCount(l, p.freeSegs[i]);
      FreeEntry(l, p.freeSegs[i]);
    }
  }

  lemma RootBlocksUsed(l: Layout)
    requires Accepted(l)
    ensures forall lpa | lpa in MountedPast(l).issued :: Used(MountedFs(l), MountedPast(l), lpa)
  {
    hide LargeEnough, Disjoint, SitWanted, NatWanted;
  }

  lemma SegmentsEstablished(l: Layout)
    requires Accepted(l)
    ensures SegInv(MountedFs(l), MountedPast(l))
  {
    var fs, p := MountedFs(l), MountedPast(l);
    FreeListEstablished(l);
    RootBlocksUsed(l);
    hide FreeOk, Used, Sit.CountOk, EmptyFrom, SitWanted, NatWanted, LargeEnough, Disjoint;
    forall seg | seg in fs.sit ensures Sit.CountOk(fs.sit[seg]) {
      EntriesCount(l, seg);
    }
    EntriesCount(l, MainSeg(l));
    EntriesCount(l, MainSeg(l) + 1);
  }

  /** From every accepted device, formatted, no run of the allocators goes wrong. */
  lemma EveryFormattedRunIsSafe(lpaNum: nat, sits: map<nat, seq<Sit.Entry>>, nats: map<nat, seq<NatEntry>>, base: Metadata,
                                ops: seq<Op>, i: nat, j: nat)
    requires FormatSuper(lpaNum).Some? && i < j < |ops|
    requires OnDevice(FormatSuper(lpaNum).value, sits, nats)
    requires var l := FormatSuper(lpaNum).value; Reads(base, ReadBack(l, sits, nats))
    ensures
      var l := FormatSuper(lpaNum).value;
      var r := FirstRun(l, ReadBack(l, sits, nats));
      && RunOk(r)
      && Given(Exec(r, ops[..i]), ops[i]) !! Given(Exec(r, ops[..j]), ops[j])
      && Reads(Replay(base, Exec(r, ops).fs.journal), Exec(r, ops).fs)
  {
    hide Accepted, FormatSuper, RunOk, Reads, OnDevice, ReadBack, MountedPast;
    var l := FormatSuper(lpaNum).value;
    SuperIsAccepted(lpaNum);
    ReadBackIsMounted(l, sits, nats);
    FirstRunOk(l);
    var r := FirstRun(l, ReadBack(l, sits, nats));
    NoBlockTwice(r, ops, i, j);
    EveryRunReplays(base, r, ops);
  }

  lemma FirstRunOk(l: Layout)
    requires Accepted(l)
    ensures RunOk(FirstRun(l, MountedFs(l))) && FirstRun(l, MountedFs(l)).fs.journal == []
  {
    hide Inv, LaneOk, Accepted;
    FormatEstablishesInv(l);
    LanesEstablished(l);
  }

  /** Formats a device, or refuses it; what it writes is what the first mount reads. */
  method Format(lpaNum: nat) returns (l: Option<Layout>, sits: map<nat, seq<Sit.Entry>>, nats: map<nat, seq<NatEntry>>)
    ensures l == FormatSuper(lpaNum)
    ensures l.Some? ==> OnDevice(l.value, sits, nats) && RunOk(FirstRun(l.value, ReadBack(l.value, sits, nats)))
  {
    hide Accepted, FormatSuper, RunOk, ReadBack, FirstRun;
    l, sits, nats := FormatSuper(lpaNum), map[], map[];
    if l.Some? {
      SuperIsAccepted(lpaNum);
      sits := FormatSit(l.value);
      nats := FormatNat(l.value);
      NatFitsRegion(l.value);
      FirstRunOk(l.value);
      ReadBackIsMounted(l.value, sits, nats);
    }
  }
}
