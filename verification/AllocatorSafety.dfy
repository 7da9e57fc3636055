/**
 Safety of the allocators over every run: no block and no live node id is handed out twice, the
 free lists stay chains without repetition, and free, active and full segments stay apart.
 */
module AllocatorSafety {
  import opened Bytes
  import opened Tables
  import opened Allocator
  import Sit = SitEntry

  ghost predicate Distinct(s: seq<u32>) { forall i, j | 0 <= i < j < |s| :: s[i] != s[j] }

  /**
   What the run so far did: the free lists, the segments filled up, the blocks handed out, and the
   NAT entry that each live node id was given.
   */
  datatype Past = Past(freeSegs: seq<u32>, full: set<u32>, issued: set<nat>, freeNids: seq<u32>, live: map<u32, NatEntry>)

  // ----- segments -----

  /** `list` is the chain of segments that starts at `head` and ends with the invalid id. */
  ghost predicate SegChain(sit: map<u32, Sit.Entry>, head: u32, list: seq<u32>)
    decreases |list|
  {
    if list == [] then head == INVALID
    else head == list[0] && head != INVALID && head in sit && SegChain(sit, sit[head].NextSeg(), list[1..])
  }

  lemma {:induction false} ChainMembers(sit: map<u32, Sit.Entry>, head: u32, list: seq<u32>)
    requires SegChain(sit, head, list)
    ensures forall i | 0 <= i < |list| :: list[i] in sit && list[i] != INVALID
    decreases |list|
  {
    if list != [] {
      ChainMembers(sit, sit[head].NextSeg(), list[1..]);
      assert forall i | 0 < i < |list| :: list[i] == list[1..][i - 1];
    }
  }

  /** A chain depends only on the links of its own segments. */
  lemma {:induction false} ChainKept(sit: map<u32, Sit.Entry>, sit': map<u32, Sit.Entry>, head: u32, list: seq<u32>)
    requires SegChain(sit, head, list)
    requires forall x | x in list && x in sit :: x in sit' && sit'[x].NextSeg() == sit[x].NextSeg()
    ensures SegChain(sit', head, list)
    decreases |list|
  {
    hide Sit.Entry.NextSeg;
    if list != [] {
      assert head in list;
      assert forall x | x in list[1..] :: x in list;
      ChainKept(sit, sit', sit[head].NextSeg(), list[1..]);
    }
  }

  ghost predicate EmptyFrom(e: Sit.Entry, off: nat) {
    e.WellFormed() && forall k | off <= k < BLOCK_PER_SEGMENT :: !e.Valid(k)
  }

  /** The free list is intact and its segments are empty. */
  ghost predicate FreeOk(fs: Fs, p: Past) {
    && SegChain(fs.sit, fs.super.firstFree, p.freeSegs)
    && |p.freeSegs| == fs.super.freeCount
    && Distinct(p.freeSegs)
    && (forall i | 0 <= i < |p.freeSegs| ::
          p.freeSegs[i] in fs.sit && EmptyFrom(fs.sit[p.freeSegs[i]], 0) && fs.sit[p.freeSegs[i]].Count() == 0)
  }

  /** An active segment is filled from the front: blocks at and above its offset are invalid. */
  ghost predicate ActiveOk(fs: Fs, k: BlockType) {
    var seg, off := Read(fs.super, CurSeg(k)), Read(fs.super, CurOff(k));
    seg in fs.sit && off <= BLOCK_PER_SEGMENT && EmptyFrom(fs.sit[seg], off)
  }

  /** Free, active and full segments are different segments. */
  ghost predicate Apart(fs: Fs, p: Past) {
    && fs.super.nodeSeg != fs.super.dataSeg
    && fs.super.nodeSeg !in p.freeSegs && fs.super.dataSeg !in p.freeSegs
    && fs.super.nodeSeg !in p.full && fs.super.dataSeg !in p.full
    && (forall seg | seg in p.freeSegs :: seg !in p.full)
  }

  /** Where a block handed out lies: in a full segment or below the offset of an active one. */
  ghost predicate Used(fs: Fs, p: Past, lpa: nat) {
    lpa >= fs.seg0 &&
    var seg, off := SegOf(fs, lpa), OffOf(fs, lpa);
    seg in p.full || (seg == fs.super.nodeSeg && off < fs.super.nodeOff) || (seg == fs.super.dataSeg && off < fs.super.dataOff)
  }

  ghost predicate SegInv(fs: Fs, p: Past) {
    && (forall seg | seg in fs.sit :: Sit.CountOk(fs.sit[seg]))
    && FreeOk(fs, p) && ActiveOk(fs, NodeBlock) && ActiveOk(fs, DataBlock) && Apart(fs, p)
    && (forall lpa | lpa in p.issued :: Used(fs, p, lpa))
  }

  /** The block's bit in SIT. */
  predicate LpaValid(fs: Fs, lpa: nat) {
    && lpa >= fs.seg0 && SegOf(fs, lpa) in fs.sit && fs.sit[SegOf(fs, lpa)].WellFormed()
    && fs.sit[SegOf(fs, lpa)].Valid(OffOf(fs, lpa))
  }

  lemma ChangedEntry(e: Sit.Entry, k: nat, valid: bool, off: nat)
    requires Sit.CountOk(e) && k < BLOCK_PER_SEGMENT && e.Valid(k) != valid
    ensures var e' := Sit.Change(e, k, valid);
            Sit.CountOk(e') && e'.NextSeg() == e.NextSeg() && (EmptyFrom(e, off) && (!valid || k < off) ==> EmptyFrom(e', off))
  {
    hide Sit.Change, Sit.Population, Sit.Entry.Valid, Sit.Entry.NextSeg;
    Sit.CountStaysOk(e, k, valid);
    Sit.ChangeKeepsLink(e, k, valid);
    Sit.ChangeBits(e, k, valid, 0);
    if EmptyFrom(e, off) && (!valid || k < off) {
      forall j | off <= j < BLOCK_PER_SEGMENT ensures !Sit.Change(e, k, valid).Valid(j) {
        Sit.ChangeBits(e, k, valid, j);
      }
    }
  }

  /** Invalidating a valid block keeps everything: it cannot lie in a free segment. */
  lemma InvalidateKeepsInv(fs: Fs, p: Past, lpa: nat)
    requires SegInv(fs, p) && LpaValid(fs, lpa)
    ensures SegInv(ChangeLpa(fs, lpa, false), p)
    ensures !LpaValid(ChangeLpa(fs, lpa, false), lpa)
  {
    hide Sit.Change, Sit.CountOk, Sit.Entry.Valid, Sit.Entry.NextSeg, Sit.Entry.Count;
    var seg, off := SegOf(fs, lpa), OffOf(fs, lpa);
    var fs', e := ChangeLpa(fs, lpa, false), Sit.Change(fs.sit[seg], off, false);
    ChangedEntry(fs.sit[seg], off, false, fs.super.nodeOff);
    ChangedEntry(fs.sit[seg], off, false, fs.super.dataOff);
    Sit.ChangeBits(fs.sit[seg], off, false, off);
    forall i | 0 <= i < |p.freeSegs| ensures p.freeSegs[i] != seg {
      assert EmptyFrom(fs.sit[p.freeSegs[i]], 0);
    }
    FreeOkKept(fs, fs', p, seg);
    forall a | a in p.issued ensures Used(fs', p, a) {
      assert Used(fs, p, a);
    }
  }

  // ----- allocating a block -----

  /** The segments after the active one was replaced. */
  function AfterNewSegment(fs: Fs, p: Past, k: BlockType): Past
    requires p.freeSegs != []
  {
    p.(freeSegs := p.freeSegs[1..], full := p.full + {Read(fs.super, CurSeg(k))})
  }

  lemma ChainTail(sit: map<u32, Sit.Entry>, head: u32, list: seq<u32>)
    requires SegChain(sit, head, list) && Distinct(list) && list != []
    ensures head in sit && SegChain(sit, sit[head].NextSeg(), list[1..]) && Distinct(list[1..]) && head !in list[1..]
  {
    assert forall i | 0 <= i < |list[1..]| :: list[1..][i] == list[i + 1];
  }

  lemma NewSegmentFields(fs: Fs, k: BlockType)
    requires fs.super.freeCount > 0 && fs.super.firstFree in fs.sit
    ensures
      var fs', seg := NewSegment(fs, k), fs.super.firstFree;
      && fs'.sit == fs.sit && fs'.seg0 == fs.seg0 && fs'.nats == fs.nats
      && fs'.super == Written(fs.super.(firstFree := fs.sit[seg].NextSeg(), freeCount := fs.super.freeCount - 1), CurSeg(k), seg)
  {
  }

  lemma NewSegmentKeepsInv(fs: Fs, p: Past, k: BlockType)
    requires SegInv(fs, p) && NeedsSegment(fs, k) && fs.super.freeCount > 0
    ensures p.freeSegs != [] && fs.super.firstFree in fs.sit
    ensures
      var fs', p' := NewSegment(fs, k), AfterNewSegment(fs, p, k);
      && SegInv(fs', p')
      && EmptyFrom(fs'.sit[Read(fs'.super, CurSeg(k))], 0)
      && forall lpa | lpa in p'.issued :: lpa >= fs'.seg0 && SegOf(fs', lpa) != Read(fs'.super, CurSeg(k))
  {
    hide NewSegment, Sit.CountOk, Sit.Entry.Valid, Sit.Entry.NextSeg, Sit.Entry.Count;
    var seg := fs.super.firstFree;
    ChainTail(fs.sit, seg, p.freeSegs);
    NewSegmentFields(fs, k);
    var fs', p' := NewSegment(fs, k), AfterNewSegment(fs, p, k);
    assert p.freeSegs[0] == seg && seg in p.freeSegs;
    assert forall x | x in p'.freeSegs :: x in p.freeSegs;
    assert forall i | 0 <= i < |p'.freeSegs| :: p'.freeSegs[i] == p.freeSegs[i + 1];
    forall lpa | lpa in p.issued ensures Used(fs', p', lpa) && SegOf(fs', lpa) != seg {
      assert Used(fs, p, lpa);
    }
  }

  lemma TakeBlockKeepsInv(fs: Fs, p: Past, k: BlockType, off: u32)
    requires SegInv(fs, p) && off < BLOCK_PER_SEGMENT
    requires var seg := Read(fs.super, CurSeg(k)); EmptyFrom(fs.sit[seg], off)
    requires forall lpa | lpa in p.issued :: lpa >= fs.seg0 &&
               (SegOf(fs, lpa) == Read(fs.super, CurSeg(k)) ==> OffOf(fs, lpa) < off)
    ensures
      var (fs', lpa) := TakeBlock(fs, k, off);
      && lpa !in p.issued && !LpaValid(fs, lpa) && LpaValid(fs', lpa)
      && lpa == FirstLpa(fs, Read(fs.super, CurSeg(k))) + off
      && SegInv(fs', p.(issued := p.issued + {lpa}))
      && fs'.nats == fs.nats && fs'.super.nextNid == fs.super.nextNid
  {
    hide Sit.Change, Sit.CountOk, Sit.Entry.Valid, Sit.Entry.NextSeg, Sit.Entry.Count, FreeOk, TakeBlock, FirstLpa;
    var seg := Read(fs.super, CurSeg(k));
    var (fs', lpa) := TakeBlock(fs, k, off);
    TakeBlockFields(fs, k, off);
    ChangedEntry(fs.sit[seg], off, true, off + 1);
    Sit.ChangeBits(fs.sit[seg], off, true, off);
    FreeOkKept(fs, fs', p, seg);
    var p' := p.(issued := p.issued + {lpa});
    assert FreeOk(fs', p') by { FreeOkSameList(fs', p, p'); }
    forall a | a in p'.issued ensures Used(fs', p', a) {
      if a != lpa { assert Used(fs, p, a); }
    }
  }

  lemma TakeBlockFields(fs: Fs, k: BlockType, off: u32)
    requires off < BLOCK_PER_SEGMENT
    requires var seg := Read(fs.super, CurSeg(k)); seg in fs.sit && fs.sit[seg].WellFormed()
    ensures
      var (fs', lpa) := TakeBlock(fs, k, off);
      var seg := Read(fs.super, CurSeg(k));
      && lpa == FirstLpa(fs, seg) + off && SegOf(fs, lpa) == seg && OffOf(fs, lpa) == off
      && fs'.sit == fs.sit[seg := Sit.Change(fs.sit[seg], off, true)]
      && fs'.super == Written(fs.super, CurOff(k), off + 1)
      && fs'.seg0 == fs.seg0 && fs'.nats == fs.nats
  {
    hide Sit.Change;
    LpaPosition(fs, Read(fs.super, CurSeg(k)), off);
  }

  /** Changing the SIT entry of a segment that is not free leaves the free list alone. */
  lemma FreeOkKept(fs: Fs, fs': Fs, p: Past, seg: u32)
    requires FreeOk(fs, p) && seg !in p.freeSegs && seg in fs.sit
    requires fs'.sit.Keys == fs.sit.Keys && forall x | x in fs.sit && x != seg :: fs'.sit[x] == fs.sit[x]
    requires fs'.super.firstFree == fs.super.firstFree && fs'.super.freeCount == fs.super.freeCount
    ensures FreeOk(fs', p)
  {
    hide Sit.Entry.NextSeg, Sit.Entry.Count, EmptyFrom;
    ChainKept(fs.sit, fs'.sit, fs.super.firstFree, p.freeSegs);
    assert forall i | 0 <= i < |p.freeSegs| :: p.freeSegs[i] in p.freeSegs && fs'.sit[p.freeSegs[i]] == fs.sit[p.freeSegs[i]];
  }

  lemma FreeOkSameList(fs: Fs, p: Past, p': Past)
    requires FreeOk(fs, p) && p'.freeSegs == p.freeSegs
    ensures FreeOk(fs, p')
  {
  }

  function AfterAlloc(fs: Fs, p: Past, k: BlockType): Past
    requires Allocatable(fs, k) && (NeedsSegment(fs, k) ==> p.freeSegs != [])
  {
    var p' := if NeedsSegment(fs, k) then AfterNewSegment(fs, p, k) else p;
    p'.(issued := p'.issued + {AllocLpa(fs, k).1})
  }

  /** Allocation returns a block that was invalid, was never handed out before, and is valid now. */
  lemma AllocKeepsInv(fs: Fs, p: Past, k: BlockType)
    requires SegInv(fs, p) && CanAlloc(fs, k)
    ensures Allocatable(fs, k) && (NeedsSegment(fs, k) ==> p.freeSegs != [])
    ensures
      var (fs', lpa) := AllocLpa(fs, k);
      && lpa !in p.issued && !LpaValid(fs, lpa) && LpaValid(fs', lpa)
      && SegInv(fs', AfterAlloc(fs, p, k))
      && fs'.nats == fs.nats && fs'.super.nextNid == fs.super.nextNid
  {
    hide NewSegment, TakeBlock, FreeOk, Apart, Sit.CountOk, LpaValid;
    if NeedsSegment(fs, k) {
      NewSegmentKeepsInv(fs, p, k);
      NewSegmentFields(fs, k);
      SameBits(fs, NewSegment(fs, k), AllocLpa(fs, k).1);
      TakeBlockKeepsInv(NewSegment(fs, k), AfterNewSegment(fs, p, k), k, 0);
    } else {
      NotIssuedAbove(fs, p, k);
      TakeBlockKeepsInv(fs, p, k, Read(fs.super, CurOff(k)));
    }
  }

  lemma SameBits(a: Fs, b: Fs, lpa: nat)
    requires a.sit == b.sit && a.seg0 == b.seg0
    ensures LpaValid(a, lpa) == LpaValid(b, lpa)
  {
  }

  /** Changing one block's bit leaves every other block's bit alone. */
  lemma OtherBits(fs: Fs, fs': Fs, lpa: nat, valid: bool, a: nat)
    requires lpa >= fs.seg0 && SegOf(fs, lpa) in fs.sit && fs.sit[SegOf(fs, lpa)].WellFormed() && fs'.seg0 == fs.seg0
    requires fs'.sit == fs.sit[SegOf(fs, lpa) := Sit.Change(fs.sit[SegOf(fs, lpa)], OffOf(fs, lpa), valid)]
    requires a != lpa
    ensures LpaValid(fs', a) == LpaValid(fs, a)
  {
    hide Sit.Change, Sit.Entry.Valid;
    if a >= fs.seg0 && SegOf(fs, a) == SegOf(fs, lpa) {
      Sit.ChangeBits(fs.sit[SegOf(fs, lpa)], OffOf(fs, lpa), valid, OffOf(fs, a));
    }
  }

  lemma AllocOtherBits(fs: Fs, k: BlockType, a: nat)
    requires Allocatable(fs, k) && a != AllocLpa(fs, k).1
    ensures LpaValid(AllocLpa(fs, k).0, a) == LpaValid(fs, a)
  {
    hide Sit.Change, LpaValid, NewSegment, TakeBlock;
    var needs := NeedsSegment(fs, k);
    if needs {
      NewSegmentFields(fs, k);
      SameBits(fs, NewSegment(fs, k), a);
    }
    var fs1, off := if needs then NewSegment(fs, k) else fs, if needs then 0 else Read(fs.super, CurOff(k));
    TakeBlockFields(fs1, k, off);
    OtherBits(fs1, AllocLpa(fs, k).0, AllocLpa(fs, k).1, true, a);
  }

  /** Writing a block back to a new address: the new one is valid, the old one is not, no other changed. */
  lemma WriteBackMoves(fs: Fs, p: Past, k: BlockType, was: nat)
    requires SegInv(fs, p) && CanAlloc(fs, k) && LpaValid(fs, was)
    ensures Allocatable(fs, k) && (NeedsSegment(fs, k) ==> p.freeSegs != [])
    ensures
      var (fs1, lpa) := AllocLpa(fs, k);
      && lpa != was && LpaValid(fs1, was)
      && var fs2 := ChangeLpa(fs1, was, false);
      && LpaValid(fs2, lpa) && !LpaValid(fs2, was) && SegInv(fs2, AfterAlloc(fs, p, k))
      && forall a: nat | a != lpa && a != was :: LpaValid(fs2, a) == LpaValid(fs, a)
  {
    AllocKeepsInv(fs, p, k);
    assert AllocLpa(fs, k).1 != was;
    AllocOtherBits(fs, k, was);
    WriteBackRest(fs, p, k, was);
  }

  lemma WriteBackRest(fs: Fs, p: Past, k: BlockType, was: nat)
    requires SegInv(fs, p) && Allocatable(fs, k) && (NeedsSegment(fs, k) ==> p.freeSegs != [])
    requires SegInv(AllocLpa(fs, k).0, AfterAlloc(fs, p, k)) && AllocLpa(fs, k).1 != was
    requires LpaValid(AllocLpa(fs, k).0, was) && LpaValid(AllocLpa(fs, k).0, AllocLpa(fs, k).1)
    ensures
      var (fs1, lpa) := AllocLpa(fs, k);
      var fs2 := ChangeLpa(fs1, was, false);
      && LpaValid(fs2, lpa) && !LpaValid(fs2, was) && SegInv(fs2, AfterAlloc(fs, p, k))
      && forall a: nat | a != lpa && a != was :: LpaValid(fs2, a) == LpaValid(fs, a)
  {
    var (fs1, lpa) := AllocLpa(fs, k);
    var fs2 := ChangeLpa(fs1, was, false);
    hide AllocLpa, SegInv, Sit.Change, Sit.Entry.Valid, Sit.Entry.WellFormed, AfterAlloc, Allocatable;
    InvalidateKeepsInv(fs1, AfterAlloc(fs, p, k), was);
    OtherBits(fs1, fs2, was, false, lpa);
    forall a: nat | a != lpa && a != was ensures LpaValid(fs2, a) == LpaValid(fs, a) {
      OtherBits(fs1, fs2, was, false, a);
      AllocOtherBits(fs, k, a);
    }
  }

  lemma NotIssuedAbove(fs: Fs, p: Past, k: BlockType)
    requires SegInv(fs, p)
    ensures forall lpa | lpa in p.issued :: lpa >= fs.seg0 &&
              (SegOf(fs, lpa) == Read(fs.super, CurSeg(k)) ==> OffOf(fs, lpa) < Read(fs.super, CurOff(k)))
  {
    forall lpa | lpa in p.issued
      ensures lpa >= fs.seg0 && (SegOf(fs, lpa) == Read(fs.super, CurSeg(k)) ==> OffOf(fs, lpa) < Read(fs.super, CurOff(k)))
    {
      assert Used(fs, p, lpa);
    }
  }

  // ----- node ids -----

  /** `list` is the chain of free node ids that starts at `head`; a free entry belongs to no file. */
  ghost predicate NidChain(nats: map<u32, NatEntry>, head: u32, list: seq<u32>)
    decreases |list|
  {
    if list == [] then head == INVALID
    else head == list[0] && head != INVALID && head in nats && nats[head].ino == 0 &&
         NidChain(nats, nats[head].blockAddr, list[1..])
  }

  predicate Live(fs: Fs, nid: u32) { nid in fs.nats && fs.nats[nid].ino != 0 }

  /**
   The free ids form a chain without repetition, every other id but 0 and 1 is live, and the live
   ids have exactly the entries they were given.
   */
  ghost predicate NidInv(fs: Fs, p: Past) {
    && NidChain(fs.nats, fs.super.nextNid, p.freeNids)
    && Distinct(p.freeNids)
    && (forall nid | nid in fs.nats && nid > 1 :: Live(fs, nid) || nid in p.freeNids)
    && (forall nid :: nid in p.live <==> Live(fs, nid))
    && (forall nid | nid in p.live :: fs.nats[nid] == p.live[nid])
  }

  /** The file that a new node belongs to: an inode is its own. */
  function Owner(nid: u32, ino: u32, isInode: bool): u32 { if isInode then nid else ino }

  lemma {:induction false} NidChainKept(nats: map<u32, NatEntry>, nats': map<u32, NatEntry>, head: u32, list: seq<u32>)
    requires NidChain(nats, head, list)
    requires forall x | x in list && x in nats :: x in nats' && nats'[x] == nats[x]
    ensures NidChain(nats', head, list)
    decreases |list|
  {
    if list != [] {
      assert head in list;
      assert forall x | x in list[1..] :: x in list;
      NidChainKept(nats, nats', nats[head].blockAddr, list[1..]);
    }
  }

  lemma {:induction false} NidChainFree(nats: map<u32, NatEntry>, head: u32, list: seq<u32>, x: u32)
    requires NidChain(nats, head, list) && x in list
    ensures x in nats && nats[x].ino == 0 && x != INVALID
    decreases |list|
  {
    if x != list[0] {
      assert x in list[1..];
      NidChainFree(nats, nats[head].blockAddr, list[1..], x);
    }
  }

  /** The run after a node id was handed out: it is live, belongs to its file, and has no block yet. */
  function AfterAllocNid(p: Past, ino: u32, isInode: bool): Past
    requires p.freeNids != []
  {
    var nid := p.freeNids[0];
    p.(freeNids := p.freeNids[1..], live := p.live[nid := NatEntry(Owner(nid, ino, isInode), INVALID)])
  }

  function AfterFreeNid(p: Past, nid: u32): Past {
    p.(freeNids := [nid] + p.freeNids, live := p.live - {nid})
  }

  /** A node id handed out was free, heads no list any more, and is live from now on, for its owner. */
  lemma AllocNidKeepsInv(fs: Fs, p: Past, ino: u32, isInode: bool)
    requires NidInv(fs, p) && fs.super.nextNid != INVALID && (isInode || ino != 0)
    ensures p.freeNids != [] && fs.super.nextNid in fs.nats
    ensures
      var (fs', nid) := AllocNid(fs, ino, isInode);
      && !Live(fs, nid) && Live(fs', nid) && nid == p.freeNids[0]
      && fs'.nats[nid].ino == Owner(nid, ino, isInode) && fs'.nats[nid].blockAddr == INVALID
      && fs'.nats.Keys == fs.nats.Keys && (forall x | x in fs.nats && x != nid :: fs'.nats[x] == fs.nats[x])
      && NidInv(fs', AfterAllocNid(p, ino, isInode))
  {
    hide AllocNid, NidChain, NidInv;
    assert NidChain(fs.nats, fs.super.nextNid, p.freeNids) by { NidInvChain(fs, p); }
    ChainFirst(fs.nats, fs.super.nextNid, p.freeNids);
    AllocNidFields(fs, ino, isInode);
    var fs' := AllocNid(fs, ino, isInode).0;
    TakenNid(fs, fs', p, AfterAllocNid(p, ino, isInode));
  }

  lemma NidInvChain(fs: Fs, p: Past)
    requires NidInv(fs, p)
    ensures NidChain(fs.nats, fs.super.nextNid, p.freeNids)
  {
  }

  /** The first free id taken for an owner: the rest of the list and the other live ids are as before. */
  lemma TakenNid(fs: Fs, fs': Fs, p: Past, p': Past)
    requires NidInv(fs, p) && p.freeNids != [] && p'.freeNids == p.freeNids[1..]
    requires
      var nid := fs.super.nextNid;
      && nid == p.freeNids[0] && nid in fs.nats && nid in p'.live && p'.live == p.live[nid := p'.live[nid]] && p'.live[nid].ino != 0
      && fs'.nats == fs.nats[nid := p'.live[nid]] && fs'.super.nextNid == fs.nats[nid].blockAddr
      && NidChain(fs.nats, fs.nats[nid].blockAddr, p.freeNids[1..])
    ensures NidInv(fs', p')
  {
    hide NidChain;
    var nid, rest := fs.super.nextNid, p.freeNids[1..];
    assert p.freeNids == [nid] + rest;
    assert forall i | 0 <= i < |rest| :: rest[i] == p.freeNids[i + 1];
    NidChainKept(fs.nats, fs'.nats, fs.nats[nid].blockAddr, rest);
    forall x: u32 ensures x in p'.live <==> Live(fs', x) { assert x in p.live <==> Live(fs, x); }
  }

  lemma AllocNidFields(fs: Fs, ino: u32, isInode: bool)
    requires fs.super.nextNid in fs.nats
    ensures
      var (fs', nid) := AllocNid(fs, ino, isInode);
      && nid == fs.super.nextNid && fs'.super.nextNid == fs.nats[nid].blockAddr
      && fs'.nats == fs.nats[nid := NatEntry(Owner(nid, ino, isInode), INVALID)]
  {
    hide NatBytes, Le32, Offset;
  }

  lemma ChainFirst(nats: map<u32, NatEntry>, head: u32, list: seq<u32>)
    requires NidChain(nats, head, list) && head != INVALID
    ensures list != [] && list[0] == head && head in nats && nats[head].ino == 0 && NidChain(nats, nats[head].blockAddr, list[1..])
  {
  }

  /** A node id given back belongs to no file and heads the free list; no other entry changes. */
  lemma FreeNidKeepsInv(fs: Fs, p: Past, nid: u32)
    requires NidInv(fs, p) && nid != INVALID && Live(fs, nid)
    ensures
      var fs' := FreeNid(fs, nid);
      && !Live(fs', nid) && fs'.super.nextNid == nid
      && fs'.nats.Keys == fs.nats.Keys && (forall x | x in fs.nats && x != nid :: fs'.nats[x] == fs.nats[x])
      && NidInv(fs', AfterFreeNid(p, nid))
  {
    hide NatBytes, Le32, Offset;
    var fs', list := FreeNid(fs, nid), [nid] + p.freeNids;
    assert nid !in p.freeNids by {
      if nid in p.freeNids { NidChainFree(fs.nats, fs.super.nextNid, p.freeNids, nid); }
    }
    NidChainKept(fs.nats, fs'.nats, fs.super.nextNid, p.freeNids);
    assert list[1..] == p.freeNids;
  }

  ghost predicate Inv(fs: Fs, p: Past) { SegInv(fs, p) && NidInv(fs, p) }

  lemma SegInvSame(fs: Fs, fs': Fs, p: Past, p': Past)
    requires SegInv(fs, p) && fs'.sit == fs.sit && fs'.seg0 == fs.seg0
    requires fs'.super == fs.super.(nextNid := fs'.super.nextNid)
    requires p'.freeSegs == p.freeSegs && p'.full == p.full && p'.issued == p.issued
    ensures SegInv(fs', p')
  {
    hide Sit.CountOk, EmptyFrom, SegChain;
    forall lpa | lpa in p.issued ensures Used(fs', p', lpa) {
      assert Used(fs, p, lpa);
    }
  }

  lemma NidInvSame(fs: Fs, fs': Fs, p: Past, p': Past)
    requires NidInv(fs, p) && fs'.nats == fs.nats && fs'.super.nextNid == fs.super.nextNid
    requires p'.freeNids == p.freeNids && p'.live == p.live
    ensures NidInv(fs', p')
  {
    hide NidChain;
    assert forall nid :: Live(fs', nid) == Live(fs, nid);
  }
}
