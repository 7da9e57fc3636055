/** The super manager as the program runs it: fields updated in place, entries appended to the journal. */
module SuperManager {
  import opened Bytes
  import opened Tables
  import opened Allocator
  import opened AllocatorRuns
  import Sit = SitEntry

  datatype Error = NoFreeNid | NoFreeSegment
  datatype Result<T> = Ok(value: T) | Err(error: Error)

  /** The entry with the block's bit set or cleared and the count adjusted, the latter within its nine bits. */
  method Flip(entry: Sit.Entry, off: nat, valid: bool) returns (e: Sit.Entry)
    requires entry.WellFormed() && off < BLOCK_PER_SEGMENT
    ensures e.WellFormed() && e == Sit.Change(entry, off, valid)
  {
    e := entry;
    var idx, bit := off / 8, off % 8;
    Sit.ByteStaysByte(e.validMap[idx], bit);
    if valid {
      e := e.(validMap := e.validMap[idx := Sit.WithBit(e.validMap[idx], bit)]);
      if e.Count() < 511 {
        e := e.(vblocks := e.vblocks + 1);
      }
    } else {
      e := e.(validMap := e.validMap[idx := Sit.WithoutBit(e.validMap[idx], bit)]);
      if e.Count() > 0 {
        e := e.(vblocks := e.vblocks - 1);
      }
    }
  }

  class SuperManager {
    const seg0: nat
    var super: Super
    var sit: map<u32, Sit.Entry>
    var nats: map<u32, NatEntry>
    var journal: seq<Item>
    var uncommitNode: seq<u32>
    var uncommitData: seq<u32>

    function View(): Fs
      reads this
    {
      Fs(seg0, super, sit, nats, journal, uncommitNode, uncommitData)
    }

    constructor (seg0: nat, super: Super, sit: map<u32, Sit.Entry>, nats: map<u32, NatEntry>)
      ensures View() == Fs(seg0, super, sit, nats, [], [], [])
    {
      this.seg0, this.super, this.sit, this.nats := seg0, super, sit, nats;
      journal, uncommitNode, uncommitData := [], [], [];
    }

    /** Takes the head of the free list; the list continues where the entry pointed. */
    method AllocNid(ino: u32, isInode: bool) returns (r: Result<u32>)
      requires super.nextNid != INVALID ==> super.nextNid in nats
      modifies this
      ensures r == (if old(super).nextNid == INVALID then Err(NoFreeNid) else Ok(old(super).nextNid))
      ensures View() == if r.Err? then old(View()) else Allocator.AllocNid(old(View()), ino, isInode).0
    {
      var nid := super.nextNid;
      if nid == INVALID {
        return Err(NoFreeNid);
      }
      var next := nats[nid].blockAddr;
      super := super.(nextNid := next);
      var entry := NatEntry(if isInode then nid else ino, INVALID);
      nats := nats[nid := entry];
      journal := journal + [Item(Nats, Entry(nid, NatBytes(entry)))];
      journal := journal + [Item(SuperBlock, Entry(Offset(NextNid), Le32(next)))];
      r := Ok(nid);
    }

    /** Pushes a node id on the free list. */
    method FreeNid(nid: u32)
      modifies this
      ensures View() == Allocator.FreeNid(old(View()), nid)
    {
      var entry := NatEntry(0, super.nextNid);
      nats := nats[nid := entry];
      super := super.(nextNid := nid);
      journal := journal + [Item(Nats, Entry(nid, NatBytes(entry)))];
      journal := journal + [Item(SuperBlock, Entry(Offset(NextNid), Le32(nid)))];
    }

    method AllocSegment() returns (r: Result<u32>)
      requires super.freeCount > 0 ==> super.firstFree in sit
      modifies this
      ensures r == (if old(super).freeCount == 0 then Err(NoFreeSegment) else Ok(old(super).firstFree))
      ensures View() == if r.Err? then old(View()) else Allocator.AllocSegment(old(View())).0
    {
      if super.freeCount == 0 {
        return Err(NoFreeSegment);
      }
      var seg := super.firstFree;
      var next := sit[seg].NextSeg();
      super := super.(firstFree := next);
      super := super.(freeCount := super.freeCount - 1);
      journal := journal + [Item(SuperBlock, Entry(Offset(FirstFree), Le32(next)))];
      journal := journal + [Item(SuperBlock, Entry(Offset(FreeCount), Le32(super.freeCount)))];
      r := Ok(seg);
    }

    /** Flips the block's bit, adjusts the count, and journals the entry; the invalid address is ignored. */
    method ChangeLpaState(lpa: nat, valid: bool)
      requires lpa != INVALID ==>
        lpa >= seg0 && (lpa - seg0) / BLOCK_PER_SEGMENT in sit && sit[(lpa - seg0) / BLOCK_PER_SEGMENT].WellFormed()
      modifies this
      ensures View() == if lpa == INVALID then old(View()) else ChangeLpa(old(View()), lpa, valid)
    {
      hide Sit.Change, Sit.ToBytes;
      if lpa == INVALID {
        return;
      }
      var seg, off := (lpa - seg0) / BLOCK_PER_SEGMENT, (lpa - seg0) % BLOCK_PER_SEGMENT;
      var e := Flip(sit[seg], off, valid);
      sit := sit[seg := e];
      journal := journal + [Item(Sits, Entry(seg, Sit.ToBytes(e)))];
    }

    /** Appends to the active segment; a full one is set aside and replaced first. */
    method AllocLpa(k: BlockType) returns (r: Result<nat>)
      requires Read(super, CurOff(k)) <= BLOCK_PER_SEGMENT
      requires CanAlloc(View(), k) ==> Allocatable(View(), k)
      requires FirstLpa(View(), Read(super, CurSeg(k))) > 0 && (super.freeCount > 0 ==> FirstLpa(View(), super.firstFree) > 0)
      modifies this
      ensures r.Ok? == CanAlloc(old(View()), k)
      ensures r.Err? ==> r.error == NoFreeSegment
      ensures r.Ok? ==> (View(), r.value) == Allocator.AllocLpa(old(View()), k)
    {
      hide Sit.Change, Sit.ToBytes, Le32;
      if Read(super, CurOff(k)) == BLOCK_PER_SEGMENT {
        var full := Read(super, CurSeg(k));
        if k == NodeBlock {
          uncommitNode := uncommitNode + [full];
        } else {
          uncommitData := uncommitData + [full];
        }
        var s := AllocSegment();
        if s.Err? {
          return Err(NoFreeSegment);
        }
        super := Written(super, CurSeg(k), s.value);
        super := Written(super, CurOff(k), 0);
        journal := journal + [Item(SuperBlock, Entry(Offset(CurSeg(k)), Le32(s.value)))];
      }
      var seg, off := Read(super, CurSeg(k)), Read(super, CurOff(k));
      var lpa := seg0 + seg * BLOCK_PER_SEGMENT + off;
      LpaPosition(View(), seg, off);
      super := Written(super, CurOff(k), off + 1);
      journal := journal + [Item(SuperBlock, Entry(Offset(CurOff(k)), Le32(off + 1)))];
      ChangeLpaState(lpa, true);
      r := Ok(lpa);
    }

    /** Hands the filled node segments over to a transaction. */
    method GetAndClearUncommitNodeSegs() returns (segs: seq<u32>)
      modifies this`uncommitNode
      ensures (View(), segs) == TakeFilled(old(View()), NodeBlock)
    {
      segs := uncommitNode;
      uncommitNode := [];
    }

    /** Hands the filled data segments over to a transaction. */
    method GetAndClearUncommitDataSegs() returns (segs: seq<u32>)
      modifies this`uncommitData
      ensures (View(), segs) == TakeFilled(old(View()), DataBlock)
    {
      segs := uncommitData;
      uncommitData := [];
    }

    /** Moves a block to a new address and gives up the old one, if it had one. */
    method WriteBack(k: BlockType, lpa: nat) returns (r: Result<nat>)
      requires Read(super, CurOff(k)) <= BLOCK_PER_SEGMENT
      requires CanAlloc(View(), k) ==> Allocatable(View(), k)
      requires FirstLpa(View(), Read(super, CurSeg(k))) > 0 && (super.freeCount > 0 ==> FirstLpa(View(), super.firstFree) > 0)
      requires CanAlloc(View(), k) && lpa != INVALID ==>
                 var fs := Allocator.AllocLpa(View(), k).0; lpa >= fs.seg0 && SegOf(fs, lpa) in fs.sit && fs.sit[SegOf(fs, lpa)].WellFormed()
      modifies this
      ensures r.Ok? == CanAlloc(old(View()), k)
      ensures r.Ok? ==>
                var (fs, newLpa) := Allocator.AllocLpa(old(View()), k);
                r.value == newLpa && View() == if lpa == INVALID then fs else ChangeLpa(fs, lpa, false)
    {
      hide Sit.Change, Sit.ToBytes, Le32, TakeBlock, NewSegment;
      r := AllocLpa(k);
      if r.Ok? && lpa != INVALID {
        ChangeLpaState(lpa, false);
      }
    }
  }
}
