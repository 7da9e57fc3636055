/**
 Runs of the allocators: what holds after every sequence of operations, whatever was allocated,
 given back and invalidated in between.
 */
module AllocatorRuns {
  import opened Bytes
  import opened Tables
  import opened Allocator
  import opened AllocatorSafety
  import Sit = SitEntry

  /**
   The history of one kind of block: the segments that were active for it, in order, the last being
   the active one; how many of the filled ones were taken over by a transaction; and the blocks
   handed out.
   */
  datatype Lane = Lane(segs: seq<u32>, taken: nat, blocks: set<nat>)

  datatype Run = Run(fs: Fs, past: Past, node: Lane, data: Lane) {
    function Of(k: BlockType): Lane { if k == NodeBlock then node else data }

    function With(k: BlockType, l: Lane): Run { if k == NodeBlock then this.(node := l) else this.(data := l) }
  }

  /** The filled segments of a kind that no transaction has taken over. */
  function Uncommitted(fs: Fs, k: BlockType): seq<u32> { if k == NodeBlock then fs.uncommitNode else fs.uncommitData }

  /** A block of the lane: in a filled segment, or below the offset of the active one. */
  ghost predicate InLane(fs: Fs, l: Lane, off: nat, lpa: nat)
    requires l.segs != []
  {
    lpa >= fs.seg0 &&
    (SegOf(fs, lpa) in l.segs[..|l.segs| - 1] || (SegOf(fs, lpa) == l.segs[|l.segs| - 1] && OffOf(fs, lpa) < off))
  }

  /**
   The uncommitted list is, in filling order, exactly the filled segments of this kind not taken yet,
   and the blocks handed out for this kind are exactly those of its filled segments and of the used
   part of its active one.
   */
  ghost predicate LaneOk(fs: Fs, p: Past, k: BlockType, l: Lane) {
    && l.segs != [] && l.taken < |l.segs|
    && l.segs[|l.segs| - 1] == Read(fs.super, CurSeg(k))
    && Uncommitted(fs, k) == l.segs[l.taken..|l.segs| - 1]
    && (forall seg | seg in l.segs[..|l.segs| - 1] :: seg in p.full)
    && (forall lpa: nat :: lpa in l.blocks <==> InLane(fs, l, Read(fs.super, CurOff(k)), lpa))
  }

  ghost predicate RunOk(r: Run) {
    Inv(r.fs, r.past) && LaneOk(r.fs, r.past, NodeBlock, r.node) && LaneOk(r.fs, r.past, DataBlock, r.data)
  }

  // ----- lanes -----

  /** The lane after a block was handed out: a block of another segment means that one became active. */
  function Extended(fs: Fs, l: Lane, lpa: nat): Lane
    requires l.segs != [] && lpa >= fs.seg0 && SegOf(fs, lpa) < 0x1_0000_0000
  {
    var seg := SegOf(fs, lpa);
    Lane(if seg == l.segs[|l.segs| - 1] then l.segs else l.segs + [seg], l.taken, l.blocks + {lpa})
  }

  /** What an allocation does to the fields that lanes are about. */
  lemma AllocFields(fs: Fs, k: BlockType)
    requires Allocatable(fs, k)
    ensures
      var (fs', lpa) := AllocLpa(fs, k);
      var needs := NeedsSegment(fs, k);
      var seg, off := if needs then fs.super.firstFree else Read(fs.super, CurSeg(k)), if needs then 0 else Read(fs.super, CurOff(k));
      && fs'.seg0 == fs.seg0 && lpa >= fs.seg0 && SegOf(fs, lpa) == seg && OffOf(fs, lpa) == off
      && Read(fs'.super, CurSeg(k)) == seg && Read(fs'.super, CurOff(k)) == off + 1
      && Uncommitted(fs', k) == Uncommitted(fs, k) + if needs then [Read(fs.super, CurSeg(k))] else []
  {
    hide Sit.Change, Sit.ToBytes, Le32;
    var needs := NeedsSegment(fs, k);
    var fs1 := if needs then NewSegment(fs, k) else fs;
    var off := if needs then 0 else Read(fs.super, CurOff(k));
    TakeBlockFields(fs1, k, off);
  }

  /** It leaves the other kind alone. */
  lemma AllocOtherKind(fs: Fs, k: BlockType, j: BlockType)
    requires Allocatable(fs, k) && j != k
    ensures
      var fs' := AllocLpa(fs, k).0;
      && fs'.seg0 == fs.seg0 && Uncommitted(fs', j) == Uncommitted(fs, j)
      && Read(fs'.super, CurSeg(j)) == Read(fs.super, CurSeg(j)) && Read(fs'.super, CurOff(j)) == Read(fs.super, CurOff(j))
  {
    hide Sit.Change, Sit.ToBytes, Le32;
  }

  lemma AllocKeepsLane(fs: Fs, p: Past, k: BlockType, l: Lane)
    requires SegInv(fs, p) && CanAlloc(fs, k) && LaneOk(fs, p, k, l)
    ensures Allocatable(fs, k) && (NeedsSegment(fs, k) ==> p.freeSegs != [])
    ensures
      var (fs', lpa) := AllocLpa(fs, k);
      && lpa >= fs.seg0 && SegOf(fs, lpa) < 0x1_0000_0000
      && LaneOk(fs', AfterAlloc(fs, p, k), k, Extended(fs, l, lpa))
  {
    hide AllocLpa, SegInv, LaneOk, InLane, Allocatable;
    AllocKeepsInv(fs, p, k);
    AllocFields(fs, k);
    var (fs', lpa) := AllocLpa(fs, k);
    if NeedsSegment(fs, k) {
      NewIsElsewhere(fs, p, k, l);
      LaneNewSegment(fs, p, k, l);
    } else {
      LaneSameSegment(fs, p, k, l);
    }
  }

  lemma NewIsElsewhere(fs: Fs, p: Past, k: BlockType, l: Lane)
    requires SegInv(fs, p) && LaneOk(fs, p, k, l) && NeedsSegment(fs, k) && p.freeSegs != []
    ensures fs.super.firstFree != l.segs[|l.segs| - 1] && fs.super.firstFree !in l.segs[..|l.segs| - 1]
    ensures fs.super.firstFree != Read(fs.super, CurSeg(k))
  {
    assert fs.super.firstFree == p.freeSegs[0] && p.freeSegs[0] in p.freeSegs;
  }

  lemma LaneSameSegment(fs: Fs, p: Past, k: BlockType, l: Lane)
    requires Allocatable(fs, k) && !NeedsSegment(fs, k) && LaneOk(fs, p, k, l)
    ensures
      var (fs', lpa) := AllocLpa(fs, k);
      && lpa >= fs.seg0 && SegOf(fs, lpa) < 0x1_0000_0000
      && LaneOk(fs', AfterAlloc(fs, p, k), k, Extended(fs, l, lpa))
  {
    hide AllocLpa, Allocatable;
    AllocFields(fs, k);
    var (fs', lpa) := AllocLpa(fs, k);
    var l', off := Extended(fs, l, lpa), Read(fs.super, CurOff(k));
    forall a: nat ensures a in l'.blocks <==> InLane(fs', l', off + 1, a) {
      SameLpa(fs, a, lpa);
    }
  }

  lemma SameLpa(fs: Fs, a: nat, b: nat)
    ensures a >= fs.seg0 && b >= fs.seg0 && SegOf(fs, a) == SegOf(fs, b) && OffOf(fs, a) == OffOf(fs, b) ==> a == b
  {
  }

  lemma LaneNewSegment(fs: Fs, p: Past, k: BlockType, l: Lane)
    requires Allocatable(fs, k) && NeedsSegment(fs, k) && p.freeSegs != [] && LaneOk(fs, p, k, l)
    requires fs.super.firstFree != l.segs[|l.segs| - 1] && fs.super.firstFree !in l.segs[..|l.segs| - 1]
    ensures
      var (fs', lpa) := AllocLpa(fs, k);
      && lpa >= fs.seg0 && SegOf(fs, lpa) < 0x1_0000_0000
      && LaneOk(fs', AfterAlloc(fs, p, k), k, Extended(fs, l, lpa))
  {
    hide AllocLpa, Allocatable;
    AllocFields(fs, k);
    var (fs', lpa) := AllocLpa(fs, k);
    var l', last := Extended(fs, l, lpa), |l.segs| - 1;
    assert l'.segs[..|l'.segs| - 1] == l.segs && l.segs == l.segs[..last] + [l.segs[last]];
    assert l'.segs[l'.taken..|l'.segs| - 1] == l.segs[l.taken..last] + [l.segs[last]];
    forall a: nat ensures a in l'.blocks <==> InLane(fs', l', 1, a) {
      SameLpa(fs, a, lpa);
    }
  }

  /** A lane depends only on its own kind's fields and on the filled segments. */
  lemma LaneKept(fs: Fs, fs': Fs, p: Past, p': Past, k: BlockType, l: Lane)
    requires LaneOk(fs, p, k, l) && p.full <= p'.full && fs'.seg0 == fs.seg0 && Uncommitted(fs', k) == Uncommitted(fs, k)
    requires Read(fs'.super, CurSeg(k)) == Read(fs.super, CurSeg(k)) && Read(fs'.super, CurOff(k)) == Read(fs.super, CurOff(k))
    ensures LaneOk(fs', p', k, l)
  {
    forall a: nat ensures a in l.blocks <==> InLane(fs', l, Read(fs'.super, CurOff(k)), a) {
      assert a in l.blocks <==> InLane(fs, l, Read(fs.super, CurOff(k)), a);
    }
  }

  /** A transaction takes over the filled segments of a kind and leaves the list empty. */
  function TakeFilled(fs: Fs, k: BlockType): (Fs, seq<u32>) {
    (if k == NodeBlock then fs.(uncommitNode := []) else fs.(uncommitData := []), Uncommitted(fs, k))
  }

  lemma TakeKeepsLane(fs: Fs, p: Past, k: BlockType, l: Lane)
    requires LaneOk(fs, p, k, l)
    ensures LaneOk(TakeFilled(fs, k).0, p, k, l.(taken := |l.segs| - 1))
    ensures TakeFilled(fs, k).1 == l.segs[l.taken..|l.segs| - 1]
  {
    var fs', l' := TakeFilled(fs, k).0, l.(taken := |l.segs| - 1);
    forall a: nat ensures a in l'.blocks <==> InLane(fs', l', Read(fs'.super, CurOff(k)), a) {
      assert a in l.blocks <==> InLane(fs, l, Read(fs.super, CurOff(k)), a);
    }
  }

  // ----- runs -----

  datatype Op =
    | OAllocNid(ino: u32, isInode: bool) | OFreeNid(nid: u32) | OAllocLpa(kind: BlockType) | OInvalidate(lpa: nat)
    | OTakeFilled(kind: BlockType)

  /** What the code demands or asserts of its caller; running out of ids or segments ends a run. */
  predicate Legal(fs: Fs, op: Op) {
    match op
    case OAllocNid(ino, isInode) => fs.super.nextNid != INVALID && (isInode || ino != 0)
    case OFreeNid(nid) => nid != INVALID && Live(fs, nid)
    case OAllocLpa(k) => CanAlloc(fs, k)
    case OInvalidate(lpa) => lpa == INVALID || LpaValid(fs, lpa)
    case OTakeFilled(k) => true
  }

  ghost function StepNid(r: Run, ino: u32, isInode: bool): (r': Run)
    requires RunOk(r) && Legal(r.fs, OAllocNid(ino, isInode))
    ensures RunOk(r')
  {
    hide SegInv, NidInv, LaneOk;
    AllocNidKeepsInv(r.fs, r.past, ino, isInode);
    var fs, past := AllocNid(r.fs, ino, isInode).0, AfterAllocNid(r.past, ino, isInode);
    SegInvSame(r.fs, fs, r.past, past);
    LaneKept(r.fs, fs, r.past, past, NodeBlock, r.node);
    LaneKept(r.fs, fs, r.past, past, DataBlock, r.data);
    r.(fs := fs, past := past)
  }

  ghost function StepFreeNid(r: Run, nid: u32): (r': Run)
    requires RunOk(r) && Legal(r.fs, OFreeNid(nid))
    ensures RunOk(r')
  {
    hide SegInv, NidInv, LaneOk;
    FreeNidKeepsInv(r.fs, r.past, nid);
    var fs, past := FreeNid(r.fs, nid), AfterFreeNid(r.past, nid);
    SegInvSame(r.fs, fs, r.past, past);
    LaneKept(r.fs, fs, r.past, past, NodeBlock, r.node);
    LaneKept(r.fs, fs, r.past, past, DataBlock, r.data);
    r.(fs := fs, past := past)
  }

  ghost function StepAlloc(r: Run, k: BlockType): (r': Run)
    requires RunOk(r) && Legal(r.fs, OAllocLpa(k))
    ensures RunOk(r')
  {
    hide SegInv, NidInv, LaneOk, AllocLpa, Allocatable;
    AllocKeepsInv(r.fs, r.past, k);
    AllocKeepsLane(r.fs, r.past, k, r.Of(k));
    LaneNonEmpty(r.fs, r.past, k, r.Of(k));
    var (fs, lpa) := AllocLpa(r.fs, k);
    var past, j := AfterAlloc(r.fs, r.past, k), if k == NodeBlock then DataBlock else NodeBlock;
    NidInvSame(r.fs, fs, r.past, past);
    AllocOtherKind(r.fs, k, j);
    LaneKept(r.fs, fs, r.past, past, j, r.Of(j));
    r.(fs := fs, past := past).With(k, Extended(r.fs, r.Of(k), lpa))
  }

  ghost function StepInvalidate(r: Run, lpa: nat): (r': Run)
    requires RunOk(r) && Legal(r.fs, OInvalidate(lpa)) && lpa != INVALID
    ensures RunOk(r')
  {
    hide SegInv, NidInv, LaneOk, Sit.Change;
    InvalidateKeepsInv(r.fs, r.past, lpa);
    var fs := ChangeLpa(r.fs, lpa, false);
    NidInvSame(r.fs, fs, r.past, r.past);
    LaneKept(r.fs, fs, r.past, r.past, NodeBlock, r.node);
    LaneKept(r.fs, fs, r.past, r.past, DataBlock, r.data);
    r.(fs := fs)
  }

  ghost function StepTake(r: Run, k: BlockType): (r': Run)
    requires RunOk(r)
    ensures RunOk(r')
  {
    hide SegInv, NidInv, LaneOk;
    var fs, l, j := TakeFilled(r.fs, k).0, r.Of(k), if k == NodeBlock then DataBlock else NodeBlock;
    TakeKeepsLane(r.fs, r.past, k, l);
    LaneNonEmpty(r.fs, r.past, k, l);
    SegInvSame(r.fs, fs, r.past, r.past);
    NidInvSame(r.fs, fs, r.past, r.past);
    LaneKept(r.fs, fs, r.past, r.past, j, r.Of(j));
    r.(fs := fs).With(k, l.(taken := |l.segs| - 1))
  }

  lemma LaneNonEmpty(fs: Fs, p: Past, k: BlockType, l: Lane)
    requires LaneOk(fs, p, k, l)
    ensures l.segs != []
  {
  }

  /** One operation; invalidating the invalid address does nothing. */
  ghost function Step(r: Run, op: Op): (r': Run)
    requires RunOk(r) && Legal(r.fs, op)
    ensures RunOk(r')
  {
    match op
    case OAllocNid(ino, isInode) => StepNid(r, ino, isInode)
    case OFreeNid(nid) => StepFreeNid(r, nid)
    case OAllocLpa(k) => StepAlloc(r, k)
    case OInvalidate(lpa) => if lpa == INVALID then r else StepInvalidate(r, lpa)
    case OTakeFilled(k) => StepTake(r, k)
  }

  /** A run of operations; an operation that is not legal in its state does not happen. */
  ghost function Exec(r: Run, ops: seq<Op>): (r': Run)
    requires RunOk(r)
    ensures RunOk(r')
  {
    if ops == [] then r
    else
      var q := Exec(r, ops[..|ops| - 1]);
      var op := ops[|ops| - 1];
      if Legal(q.fs, op) then Step(q, op) else q
  }

  // ----- no block twice -----

  /** The block that an operation hands out, if it does. */
  ghost function Given(r: Run, op: Op): set<nat>
    requires RunOk(r)
  {
    if op.OAllocLpa? && Legal(r.fs, op) then AllocKeepsInv(r.fs, r.past, op.kind); {AllocLpa(r.fs, op.kind).1} else {}
  }

  /** Blocks are remembered once handed out, under their kind. */
  lemma IssuedGrows(r: Run, op: Op)
    requires RunOk(r) && Legal(r.fs, op)
    ensures Step(r, op).past.issued == r.past.issued + Given(r, op)
    ensures Given(r, op) !! r.past.issued
    ensures forall lpa | lpa in Given(r, op) :: !LpaValid(r.fs, lpa) && LpaValid(Step(r, op).fs, lpa)
    ensures forall k :: Step(r, op).Of(k).blocks == r.Of(k).blocks + if op == OAllocLpa(k) then Given(r, op) else {}
    ensures forall k :: r.Of(k).segs <= Step(r, op).Of(k).segs
  {
    hide SegInv, NidInv, LpaValid, AllocLpa, LaneOk;
    match op {
      case OAllocLpa(k) =>
        AllocKeepsInv(r.fs, r.past, k);
        AllocKeepsLane(r.fs, r.past, k, r.Of(k));
      case _ =>
    }
  }

  lemma {:induction false} IssuedMonotone(r: Run, ops: seq<Op>, i: nat)
    requires RunOk(r) && i <= |ops|
    ensures Exec(r, ops[..i]).past.issued <= Exec(r, ops).past.issued
    ensures forall k :: Exec(r, ops[..i]).Of(k).blocks <= Exec(r, ops).Of(k).blocks && Exec(r, ops[..i]).Of(k).segs <= Exec(r, ops).Of(k).segs
    decreases |ops|
  {
    hide RunOk, Legal, Step, Given;
    if i < |ops| {
      var init := ops[..|ops| - 1];
      assert init[..i] == ops[..i];
      IssuedMonotone(r, init, i);
      var q := Exec(r, init);
      if Legal(q.fs, ops[|ops| - 1]) {
        IssuedGrows(q, ops[|ops| - 1]);
      }
    } else {
      assert ops[..i] == ops;
    }
  }

  /** Over every run, two allocations never hand out the same block, whatever was invalidated in between. */
  lemma NoBlockTwice(r: Run, ops: seq<Op>, i: nat, j: nat)
    requires RunOk(r) && i < j < |ops|
    ensures Given(Exec(r, ops[..i]), ops[i]) !! Given(Exec(r, ops[..j]), ops[j])
  {
    hide RunOk, Legal, Step, Given;
    var a, b := Exec(r, ops[..i]), Exec(r, ops[..j]);
    if Legal(a.fs, ops[i]) && Legal(b.fs, ops[j]) {
      IssuedGrows(a, ops[i]);
      IssuedGrows(b, ops[j]);
      var upto := ops[..i + 1];
      assert upto[..|upto| - 1] == ops[..i];
      assert Exec(r, upto).past.issued == a.past.issued + Given(a, ops[i]);
      IssuedMonotone(r, ops[..j], i + 1);
      assert ops[..j][..i + 1] == upto;
    } else {
      NothingGiven(a, ops[i]);
      NothingGiven(b, ops[j]);
    }
  }

  lemma NothingGiven(r: Run, op: Op)
    requires RunOk(r)
    ensures !Legal(r.fs, op) ==> Given(r, op) == {}
  {
  }

  // ----- running out -----

  /** Block `off` of the active segment of a kind was never handed out. */
  ghost predicate Unused(r: Run, k: BlockType, off: nat) {
    off < BLOCK_PER_SEGMENT && FirstLpa(r.fs, Read(r.fs.super, CurSeg(k))) + off !in r.Of(k).blocks
  }

  /**
   A block can be allocated exactly when a segment is free or a block of the active one was never
   handed out; a node id exactly when the free list is not empty.
   */
  lemma RunsOutExactly(r: Run, k: BlockType)
    requires RunOk(r)
    ensures CanAlloc(r.fs, k) <==> r.past.freeSegs != [] || exists off: nat :: Unused(r, k, off)
    ensures r.fs.super.nextNid != INVALID <==> r.past.freeNids != []
  {
    hide Sit.CountOk, EmptyFrom, SegChain, NidChain, Unused, LaneOk;
    assert |r.past.freeSegs| == r.fs.super.freeCount;
    var last := Read(r.fs.super, CurOff(k));
    assert last <= BLOCK_PER_SEGMENT by { assert ActiveOk(r.fs, k); }
    forall off: nat ensures Unused(r, k, off) <==> last <= off < BLOCK_PER_SEGMENT {
      ActiveBlock(r, k, off);
    }
    if last < BLOCK_PER_SEGMENT {
      assert Unused(r, k, last);
    }
    NidsLeft(r.fs, r.past);
  }

  lemma ActiveBlock(r: Run, k: BlockType, off: nat)
    requires RunOk(r)
    ensures Unused(r, k, off) <==> Read(r.fs.super, CurOff(k)) <= off < BLOCK_PER_SEGMENT
  {
    hide NidInv, FreeOk, Sit.CountOk, EmptyFrom;
    if off < BLOCK_PER_SEGMENT {
      var l, seg := r.Of(k), Read(r.fs.super, CurSeg(k));
      var lpa := FirstLpa(r.fs, seg) + off;
      LpaPosition(r.fs, seg, off);
      assert lpa in l.blocks <==> InLane(r.fs, l, Read(r.fs.super, CurOff(k)), lpa);
      ActiveNotFull(r, k);
    }
  }

  lemma ActiveNotFull(r: Run, k: BlockType)
    requires RunOk(r)
    ensures var l := r.Of(k); l.segs != [] && l.segs[|l.segs| - 1] !in l.segs[..|l.segs| - 1]
  {
    hide NidInv, FreeOk, Sit.CountOk, EmptyFrom;
    assert LaneOk(r.fs, r.past, k, r.Of(k));
  }

  lemma NidsLeft(fs: Fs, p: Past)
    requires NidInv(fs, p)
    ensures fs.super.nextNid != INVALID <==> p.freeNids != []
  {
  }

  // ----- kinds of segments -----

  /**
   Over every run a block handed out for a kind lies, ever after, in a segment that was active for
   that kind; the segments waiting to be taken over are, in filling order, exactly the filled ones
   of their kind; and nothing else was handed out in them.
   */
  lemma KindsStayApart(r: Run, ops: seq<Op>, i: nat, k: BlockType)
    requires RunOk(r) && i < |ops| && ops[i] == OAllocLpa(k)
    ensures
      var a, z := Exec(r, ops[..i]), Exec(r, ops);
      && (forall lpa | lpa in Given(a, ops[i]) :: lpa in z.Of(k).blocks && lpa >= z.fs.seg0 && SegOf(z.fs, lpa) in z.Of(k).segs)
      && LaneOk(z.fs, z.past, k, z.Of(k)) && r.Of(k).segs <= z.Of(k).segs
  {
    hide Inv, Legal, Step, Given, LaneOk;
    var a, z := Exec(r, ops[..i]), Exec(r, ops);
    assert ops[..0] == [];
    IssuedMonotone(r, ops, 0);
    if Legal(a.fs, ops[i]) {
      IssuedGrows(a, ops[i]);
      var upto := ops[..i + 1];
      assert upto[..|upto| - 1] == ops[..i];
      IssuedMonotone(r, ops, i + 1);
      forall lpa | lpa in Given(a, ops[i]) ensures lpa in z.Of(k).blocks && lpa >= z.fs.seg0 && SegOf(z.fs, lpa) in z.Of(k).segs {
        BlockInLane(z.fs, z.past, k, z.Of(k), lpa);
      }
    } else {
      NothingGiven(a, ops[i]);
    }
  }

  lemma BlockInLane(fs: Fs, p: Past, k: BlockType, l: Lane, lpa: nat)
    requires LaneOk(fs, p, k, l) && lpa in l.blocks
    ensures lpa >= fs.seg0 && SegOf(fs, lpa) in l.segs
  {
    assert InLane(fs, l, Read(fs.super, CurOff(k)), lpa);
    assert l.segs[|l.segs| - 1] in l.segs && forall x | x in l.segs[..|l.segs| - 1] :: x in l.segs;
  }

  // ----- owners -----

  /** A node id keeps the owner it was allocated for until it is given back, over every run. */
  lemma {:induction false} OwnerKept(r: Run, ops: seq<Op>, i: nat, nid: u32)
    requires RunOk(r) && i < |ops| && ops[i].OAllocNid? && Legal(Exec(r, ops[..i]).fs, ops[i])
    requires nid == Exec(r, ops[..i]).fs.super.nextNid && forall j | i < j < |ops| :: ops[j] != OFreeNid(nid)
    ensures nid in Exec(r, ops).fs.nats && Exec(r, ops).fs.nats[nid] == NatEntry(Owner(nid, ops[i].ino, ops[i].isInode), INVALID)
    decreases |ops|
  {
    hide RunOk, Legal, Step;
    var init, op := ops[..|ops| - 1], ops[|ops| - 1];
    var q := Exec(r, init);
    if i == |ops| - 1 {
      AllocatedEntry(q, op.ino, op.isInode);
    } else {
      assert init[..i] == ops[..i];
      OwnerKept(r, init, i, nid);
      OwnerIsReal(Exec(r, ops[..i]).fs, ops[i].ino, ops[i].isInode);
      if Legal(q.fs, op) { EntryKept(q, op, nid); }
    }
  }

  lemma OwnerIsReal(fs: Fs, ino: u32, isInode: bool)
    requires Legal(fs, OAllocNid(ino, isInode))
    ensures Owner(fs.super.nextNid, ino, isInode) != 0
  {
  }

  lemma AllocatedEntry(r: Run, ino: u32, isInode: bool)
    requires RunOk(r) && Legal(r.fs, OAllocNid(ino, isInode))
    ensures
      var nid, fs := r.fs.super.nextNid, Step(r, OAllocNid(ino, isInode)).fs;
      nid in fs.nats && fs.nats[nid] == NatEntry(Owner(nid, ino, isInode), INVALID)
  {
    hide SegInv, LaneOk, NidInv;
    AllocNidKeepsInv(r.fs, r.past, ino, isInode);
  }

  /** Only giving an id back, or allocating it, changes its entry. */
  lemma EntryKept(r: Run, op: Op, nid: u32)
    requires RunOk(r) && Legal(r.fs, op) && op != OFreeNid(nid) && Live(r.fs, nid)
    ensures nid in Step(r, op).fs.nats && Step(r, op).fs.nats[nid] == r.fs.nats[nid]
  {
    hide SegInv, LaneOk, NidInv, AllocLpa, Sit.Change;
    match op {
      case OAllocNid(ino, isInode) => AllocNidKeepsInv(r.fs, r.past, ino, isInode);
      case OFreeNid(x) => FreeNidKeepsInv(r.fs, r.past, x);
      case OAllocLpa(k) => AllocKeepsInv(r.fs, r.past, k);
      case _ =>
    }
  }

  // ----- write-ahead completeness over runs -----

  /** After any run, replaying the journal over tables that read as the starting state gives tables that read as the cached one. */
  lemma {:induction false} EveryRunReplays(base: Metadata, r: Run, ops: seq<Op>)
    requires RunOk(r) && r.fs.journal == [] && Reads(base, r.fs)
    ensures Reads(Replay(base, Exec(r, ops).fs.journal), Exec(r, ops).fs)
  {
    hide Reads, RunOk, Legal, Step;
    if ops != [] {
      EveryRunReplays(base, r, ops[..|ops| - 1]);
      var q, op := Exec(r, ops[..|ops| - 1]), ops[|ops| - 1];
      if Legal(q.fs, op) {
        StepReplays(base, q, op);
      }
    }
  }

  lemma StepReplays(base: Metadata, r: Run, op: Op)
    requires RunOk(r) && Legal(r.fs, op) && Replays(base, r.fs)
    ensures Replays(base, Step(r, op).fs)
  {
    hide Replays, AllocNid, AllocLpa, ChangeLpa, FreeNid, SegInv, NidInv, LaneOk;
    match op {
      case OAllocNid(ino, isInode) =>
        AllocNidKeepsInv(r.fs, r.past, ino, isInode);
        AllocNidReplays(base, r.fs, ino, isInode);
      case OFreeNid(nid) => FreeNidReplays(base, r.fs, nid);
      case OAllocLpa(k) =>
        AllocKeepsInv(r.fs, r.past, k);
        AllocLpaReplays(base, r.fs, k);
      case OInvalidate(lpa) =>
        if lpa != INVALID {
          ChangeLpaReplays(base, r.fs, lpa, false);
        }
      case OTakeFilled(k) => UncommitReplays(base, r.fs, [], []);
    }
  }
}
