/**
 The super manager: node ids from a list threaded through the free NAT entries, segments from a
 list threaded through the free SIT entries, and blocks appended to an active node segment and an
 active data segment. Every change of the super block, NAT and SIT is journalled.
 */
module Allocator {
  import opened Bytes
  import opened Tables
  import Sit = SitEntry

  const BLOCK_PER_SEGMENT := Sit.BLOCK_PER_SEGMENT
  const INVALID: u32 := 0          // INVALID_NID, INVALID_SEGID and INVALID_LPA

  datatype NatEntry = NatEntry(ino: u32, blockAddr: u32)

  datatype BlockType = NodeBlock | DataBlock

  datatype Super = Super(firstFree: u32, freeCount: u32, nodeSeg: u32, nodeOff: u32, dataSeg: u32, dataOff: u32, nextNid: u32)

  /** The words of the super block that the allocators change. */
  datatype Word = FirstFree | FreeCount | CurSeg(kind: BlockType) | CurOff(kind: BlockType) | NextNid

  /** The word's byte offset in the super block. */
  function Offset(w: Word): u32 {
    match w
    case FirstFree => 92
    case CurSeg(DataBlock) => 104
    case CurOff(DataBlock) => 108
    case CurSeg(NodeBlock) => 112
    case CurOff(NodeBlock) => 116
    case FreeCount => 124
    case NextNid => 128
  }

  function Read(s: Super, w: Word): u32 {
    match w
    case FirstFree => s.firstFree
    case FreeCount => s.freeCount
    case CurSeg(NodeBlock) => s.nodeSeg
    case CurSeg(DataBlock) => s.dataSeg
    case CurOff(NodeBlock) => s.nodeOff
    case CurOff(DataBlock) => s.dataOff
    case NextNid => s.nextNid
  }

  function Written(s: Super, w: Word, v: u32): Super {
    match w
    case FirstFree => s.(firstFree := v)
    case FreeCount => s.(freeCount := v)
    case CurSeg(NodeBlock) => s.(nodeSeg := v)
    case CurSeg(DataBlock) => s.(dataSeg := v)
    case CurOff(NodeBlock) => s.(nodeOff := v)
    case CurOff(DataBlock) => s.(dataOff := v)
    case NextNid => s.(nextNid := v)
  }

  /** The cached metadata, the journal of the running transaction, and the segments it filled. */
  datatype Fs = Fs(seg0: nat, super: Super, sit: map<u32, Sit.Entry>, nats: map<u32, NatEntry>, journal: seq<Item>,
                   uncommitNode: seq<u32>, uncommitData: seq<u32>)

  function FirstLpa(fs: Fs, seg: u32): nat { fs.seg0 + seg * BLOCK_PER_SEGMENT }
  function SegOf(fs: Fs, lpa: nat): nat requires lpa >= fs.seg0 { (lpa - fs.seg0) / BLOCK_PER_SEGMENT }
  function OffOf(fs: Fs, lpa: nat): nat requires lpa >= fs.seg0 { (lpa - fs.seg0) % BLOCK_PER_SEGMENT }

  // ----- changing a table and journalling the change -----

  function NatBytes(e: NatEntry): seq<byte> { Le32(e.ino) + Le32(e.blockAddr) }

  function PutNat(fs: Fs, nid: u32, e: NatEntry): Fs {
    fs.(nats := fs.nats[nid := e], journal := fs.journal + [Item(Nats, Entry(nid, NatBytes(e)))])
  }

  function PutSit(fs: Fs, seg: u32, e: Sit.Entry): Fs
    requires e.WellFormed()
  {
    fs.(sit := fs.sit[seg := e], journal := fs.journal + [Item(Sits, Entry(seg, Sit.ToBytes(e)))])
  }

  function PutWord(fs: Fs, w: Word, v: u32): Fs {
    fs.(super := Written(fs.super, w, v), journal := fs.journal + [Item(SuperBlock, Entry(Offset(w), Le32(v)))])
  }

  // ----- node ids -----

  function AllocNid(fs: Fs, ino: u32, isInode: bool): (Fs, u32)
    requires fs.super.nextNid in fs.nats
  {
    var nid := fs.super.nextNid;
    var next := fs.nats[nid].blockAddr;
    (PutWord(PutNat(fs, nid, NatEntry(if isInode then nid else ino, INVALID)), NextNid, next), nid)
  }

  function FreeNid(fs: Fs, nid: u32): Fs {
    PutWord(PutNat(fs, nid, NatEntry(0, fs.super.nextNid)), NextNid, nid)
  }

  // ----- segments and blocks -----

  /** Takes the first segment of the free list. */
  function AllocSegment(fs: Fs): (Fs, u32)
    requires fs.super.freeCount > 0 && fs.super.firstFree in fs.sit
  {
    var seg := fs.super.firstFree;
    (PutWord(PutWord(fs, FirstFree, fs.sit[seg].NextSeg()), FreeCount, fs.super.freeCount - 1), seg)
  }

  /** Marks a block valid or invalid in SIT. */
  function ChangeLpa(fs: Fs, lpa: nat, valid: bool): Fs
    requires lpa >= fs.seg0 && SegOf(fs, lpa) in fs.sit && fs.sit[SegOf(fs, lpa)].WellFormed()
  {
    var seg := SegOf(fs, lpa);
    PutSit(fs, seg, Sit.Change(fs.sit[seg], OffOf(fs, lpa), valid))
  }

  /** A full active segment goes to the uncommitted ones; a free segment takes its place. */
  function NewSegment(fs: Fs, k: BlockType): Fs
    requires fs.super.freeCount > 0 && fs.super.firstFree in fs.sit
  {
    var full := Read(fs.super, CurSeg(k));
    var fs0 := if k == NodeBlock then fs.(uncommitNode := fs.uncommitNode + [full])
               else fs.(uncommitData := fs.uncommitData + [full]);
    var (fs1, seg) := AllocSegment(fs0);
    PutWord(fs1, CurSeg(k), seg)
  }

  /** Takes block `off` of the active segment and marks it valid. */
  function TakeBlock(fs: Fs, k: BlockType, off: u32): (Fs, nat)
    requires off < BLOCK_PER_SEGMENT
    requires var seg := Read(fs.super, CurSeg(k)); seg in fs.sit && fs.sit[seg].WellFormed()
  {
    var seg := Read(fs.super, CurSeg(k));
    var lpa := FirstLpa(fs, seg) + off;
    LpaPosition(fs, seg, off);
    (ChangeLpa(PutWord(fs, CurOff(k), off + 1), lpa, true), lpa)
  }

  /** Whether the active segment has to be replaced first. */
  predicate NeedsSegment(fs: Fs, k: BlockType) { Read(fs.super, CurOff(k)) == BLOCK_PER_SEGMENT }

  /** Allocation succeeds unless a new segment is needed and none is free. */
  predicate CanAlloc(fs: Fs, k: BlockType) { NeedsSegment(fs, k) ==> fs.super.freeCount > 0 }

  predicate Allocatable(fs: Fs, k: BlockType) {
    && Read(fs.super, CurOff(k)) <= BLOCK_PER_SEGMENT
    && CanAlloc(fs, k)
    && var seg := if NeedsSegment(fs, k) then fs.super.firstFree else Read(fs.super, CurSeg(k));
       seg in fs.sit && fs.sit[seg].WellFormed()
  }

  /** Allocates a block for a node or for data. */
  function AllocLpa(fs: Fs, k: BlockType): (Fs, nat)
    requires Allocatable(fs, k)
  {
    if NeedsSegment(fs, k) then TakeBlock(NewSegment(fs, k), k, 0)
    else TakeBlock(fs, k, Read(fs.super, CurOff(k)))
  }

  lemma LpaPosition(fs: Fs, seg: u32, off: nat)
    requires off < BLOCK_PER_SEGMENT
    ensures SegOf(fs, FirstLpa(fs, seg) + off) == seg && OffOf(fs, FirstLpa(fs, seg) + off) == off
  {
  }

  // ----- write-ahead completeness -----

  /** A NAT entry read by field position: the owner in bytes 0 to 3, the block address in bytes 4 to 7. */
  function NatOf(b: seq<byte>): NatEntry
    requires |b| == 8
  {
    NatEntry(FromLe32([b[0], b[1], b[2], b[3]]), FromLe32([b[4], b[5], b[6], b[7]]))
  }

  lemma NatRoundTrip(e: NatEntry)
    ensures |NatBytes(e)| == 8 && NatOf(NatBytes(e)) == e
  {
    hide FromLe32;
    Le32RoundTrip(e.ino);
    Le32RoundTrip(e.blockAddr);
    var b := NatBytes(e);
    assert [b[0], b[1], b[2], b[3]] == Le32(e.ino) && [b[4], b[5], b[6], b[7]] == Le32(e.blockAddr);
  }

  /** The word at a byte offset of the super block has this value. */
  ghost predicate WordIs(t: Table, offset: u32, v: u32) {
    offset in t && |t[offset]| == 4 && FromLe32(t[offset]) == v
  }

  /** The super block's words, each where the structure has it. */
  ghost predicate SuperReads(t: Table, s: Super) {
    && WordIs(t, 92, s.firstFree)
    && WordIs(t, 104, s.dataSeg) && WordIs(t, 108, s.dataOff)
    && WordIs(t, 112, s.nodeSeg) && WordIs(t, 116, s.nodeOff)
    && WordIs(t, 124, s.freeCount) && WordIs(t, 128, s.nextNid)
  }

  ghost predicate NatReads(t: Table, nats: map<u32, NatEntry>) {
    t.Keys == nats.Keys && forall nid | nid in nats :: |t[nid]| == 8 && NatOf(t[nid]) == nats[nid]
  }

  ghost predicate SitReads(t: Table, sit: map<u32, Sit.Entry>) {
    t.Keys == sit.Keys && forall seg | seg in sit :: |t[seg]| == 68 && Sit.FromBytes(t[seg]) == sit[seg]
  }

  /** Reading the tables field by field gives exactly the cached metadata. */
  ghost predicate Reads(m: Metadata, fs: Fs) {
    NatReads(m.nats, fs.nats) && SitReads(m.sits, fs.sit) && SuperReads(m.super, fs.super)
  }

  ghost predicate WellFormed(fs: Fs) { forall seg | seg in fs.sit :: fs.sit[seg].WellFormed() }

  /** Replaying the accumulated journal over `base` and reading the result gives exactly the cached metadata. */
  ghost predicate Replays(base: Metadata, fs: Fs) {
    Reads(Replay(base, fs.journal), fs)
  }

  /** The cached metadata as tables; they read back as what they were made from. */
  function AsTables(fs: Fs): Metadata
    requires WellFormed(fs)
  {
    Metadata(map nid | nid in fs.nats :: NatBytes(fs.nats[nid]),
             map seg | seg in fs.sit :: Sit.ToBytes(fs.sit[seg]),
             map[Offset(FirstFree) := Le32(fs.super.firstFree),
                 Offset(CurSeg(DataBlock)) := Le32(fs.super.dataSeg), Offset(CurOff(DataBlock)) := Le32(fs.super.dataOff),
                 Offset(CurSeg(NodeBlock)) := Le32(fs.super.nodeSeg), Offset(CurOff(NodeBlock)) := Le32(fs.super.nodeOff),
                 Offset(FreeCount) := Le32(fs.super.freeCount), Offset(NextNid) := Le32(fs.super.nextNid)])
  }

  lemma AsTablesReads(fs: Fs)
    requires WellFormed(fs)
    ensures Reads(AsTables(fs), fs)
  {
    hide NatBytes, NatOf, Sit.ToBytes, Sit.FromBytes, Le32, FromLe32;
    forall nid | nid in fs.nats ensures |NatBytes(fs.nats[nid])| == 8 && NatOf(NatBytes(fs.nats[nid])) == fs.nats[nid] {
      NatRoundTrip(fs.nats[nid]);
    }
    forall seg | seg in fs.sit ensures Sit.FromBytes(Sit.ToBytes(fs.sit[seg])) == fs.sit[seg] {
      Sit.BytesRoundTrip(fs.sit[seg]);
    }
    var s := fs.super;
    Le32RoundTrip(s.firstFree); Le32RoundTrip(s.freeCount); Le32RoundTrip(s.nextNid);
    Le32RoundTrip(s.dataSeg); Le32RoundTrip(s.dataOff); Le32RoundTrip(s.nodeSeg); Le32RoundTrip(s.nodeOff);
  }

  lemma ReplaySnoc(m: Metadata, items: seq<Item>, i: Item)
    ensures Replay(m, items + [i]) == ApplyItem(Replay(m, items), i)
  {
    assert (items + [i])[..|items|] == items;
  }

  lemma PutNatReplays(base: Metadata, fs: Fs, nid: u32, e: NatEntry)
    requires Replays(base, fs)
    ensures Replays(base, PutNat(fs, nid, e))
  {
    hide Replay, NatBytes, NatOf, SitReads, SuperReads;
    ReplaySnoc(base, fs.journal, Item(Nats, Entry(nid, NatBytes(e))));
    NatRoundTrip(e);
  }

  lemma PutSitReplays(base: Metadata, fs: Fs, seg: u32, e: Sit.Entry)
    requires Replays(base, fs) && e.WellFormed()
    ensures Replays(base, PutSit(fs, seg, e))
  {
    hide Replay, Sit.ToBytes, Sit.FromBytes, NatReads, SuperReads;
    ReplaySnoc(base, fs.journal, Item(Sits, Entry(seg, Sit.ToBytes(e))));
    Sit.BytesRoundTrip(e);
  }

  /** Overwriting a word changes that word of the super block and no other. */
  lemma WordWritten(t: Table, s: Super, w: Word, v: u32)
    requires SuperReads(t, s)
    ensures SuperReads(t[Offset(w) := Le32(v)], Written(s, w, v))
  {
    hide Le32, FromLe32;
    Le32RoundTrip(v);
    match w {
      case CurSeg(k) => match k { case NodeBlock => case DataBlock => }
      case CurOff(k) => match k { case NodeBlock => case DataBlock => }
      case _ =>
    }
  }

  lemma PutWordReplays(base: Metadata, fs: Fs, w: Word, v: u32)
    requires Replays(base, fs)
    ensures Replays(base, PutWord(fs, w, v))
  {
    hide Replay, Le32, SuperReads, NatReads, SitReads, Offset, Written;
    ReplaySnoc(base, fs.journal, Item(SuperBlock, Entry(Offset(w), Le32(v))));
    WordWritten(Replay(base, fs.journal).super, fs.super, w, v);
  }

  lemma AllocNidReplays(base: Metadata, fs: Fs, ino: u32, isInode: bool)
    requires Replays(base, fs) && fs.super.nextNid in fs.nats
    ensures Replays(base, AllocNid(fs, ino, isInode).0)
  {
    hide Replays;
    var nid := fs.super.nextNid;
    var e := NatEntry(if isInode then nid else ino, INVALID);
    PutNatReplays(base, fs, nid, e);
    PutWordReplays(base, PutNat(fs, nid, e), NextNid, fs.nats[nid].blockAddr);
  }

  lemma FreeNidReplays(base: Metadata, fs: Fs, nid: u32)
    requires Replays(base, fs)
    ensures Replays(base, FreeNid(fs, nid))
  {
    hide Replays;
    var e := NatEntry(0, fs.super.nextNid);
    PutNatReplays(base, fs, nid, e);
    PutWordReplays(base, PutNat(fs, nid, e), NextNid, nid);
  }

  lemma ChangeLpaReplays(base: Metadata, fs: Fs, lpa: nat, valid: bool)
    requires Replays(base, fs) && lpa >= fs.seg0 && SegOf(fs, lpa) in fs.sit && fs.sit[SegOf(fs, lpa)].WellFormed()
    ensures Replays(base, ChangeLpa(fs, lpa, valid))
  {
    hide Replays;
    var seg := SegOf(fs, lpa);
    PutSitReplays(base, fs, seg, Sit.Change(fs.sit[seg], OffOf(fs, lpa), valid));
  }

  lemma UncommitReplays(base: Metadata, fs: Fs, node: seq<u32>, data: seq<u32>)
    requires Replays(base, fs)
    ensures Replays(base, fs.(uncommitNode := node)) && Replays(base, fs.(uncommitData := data))
  {
    hide Replay, NatReads, SitReads, SuperReads;
  }

  lemma NewSegmentReplays(base: Metadata, fs: Fs, k: BlockType)
    requires Replays(base, fs) && fs.super.freeCount > 0 && fs.super.firstFree in fs.sit
    ensures Replays(base, NewSegment(fs, k))
  {
    hide Replays;
    var full := Read(fs.super, CurSeg(k));
    UncommitReplays(base, fs, fs.uncommitNode + [full], fs.uncommitData + [full]);
    var fs0 := if k == NodeBlock then fs.(uncommitNode := fs.uncommitNode + [full])
               else fs.(uncommitData := fs.uncommitData + [full]);
    var seg := fs0.super.firstFree;
    PutWordReplays(base, fs0, FirstFree, fs0.sit[seg].NextSeg());
    var fs1 := PutWord(fs0, FirstFree, fs0.sit[seg].NextSeg());
    PutWordReplays(base, fs1, FreeCount, fs0.super.freeCount - 1);
    PutWordReplays(base, AllocSegment(fs0).0, CurSeg(k), seg);
  }

  lemma AllocLpaReplays(base: Metadata, fs: Fs, k: BlockType)
    requires Replays(base, fs) && Allocatable(fs, k)
    ensures Replays(base, AllocLpa(fs, k).0)
  {
    hide Replays;
    var needs := NeedsSegment(fs, k);
    if needs {
      NewSegmentReplays(base, fs, k);
    }
    var fs1 := if needs then NewSegment(fs, k) else fs;
    var off := if needs then 0 else Read(fs.super, CurOff(k));
    var seg := Read(fs1.super, CurSeg(k));
    PutWordReplays(base, fs1, CurOff(k), off + 1);
    LpaPosition(fs1, seg, off);
    ChangeLpaReplays(base, PutWord(fs1, CurOff(k), off + 1), FirstLpa(fs1, seg) + off, true);
  }
}
